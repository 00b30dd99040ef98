/** Publication of one cached archive by any number of racing processes. */
module ArchivePublication {
  import opened Bytes

  type Content = seq<Byte>

  /** What the cache path holds. */
  datatype Slot = Absent | File(content: Content) | Directory

  /** The locked hash, and the hash function it was taken with. */
  datatype Lock = Lock(sha256: string, digest: Content -> string) {
    predicate Matches(c: Content) { digest(c) == sha256 }
    predicate Verified(slot: Slot) { slot.File? && Matches(slot.content) }
    predicate Corrupt(slot: Slot) { slot.File? && !Matches(slot.content) }
    /** The loader accepts 64 hexadecimal digits only, so an unreadable file ('') never matches. */
    predicate Valid() { sha256 != "" }
  }

  /** Where one call of `prepareArchive` stands; `Failed` also covers a call that was killed. */
  datatype Call =
    | Waiting
    | Hashing
    | Hashed(hash: string)
    | Fetching
    | Fetched(temporary: Content)
    | Linking(temporary: Content, attempt: nat)
    | Refused(temporary: Content, attempt: nat)
    | Compared(temporary: Content, attempt: nat, hash: string)
    | Removing(temporary: Content, attempt: nat)
    | Returned
    | Failed

  /** `misread` records that hashing a file that is there has failed at some point. */
  datatype World = World(slot: Slot, calls: seq<Call>, misread: bool)

  const ATTEMPTS := 3

  /** The hash of the file in the slot, or '' when there is no file or reading it fails. */
  predicate HashReads(lock: Lock, w: World, hash: string, misread: bool) {
    if w.slot.File? && hash == lock.digest(w.slot.content) then
      misread == w.misread
    else
      hash == "" && misread == (w.misread || w.slot.File?)
  }

  predicate Keeps(w: World, v: World) {
    v.slot == w.slot && v.misread == w.misread
  }

  /** One atomic step of call `p` that does not fail on its own account. */
  predicate Advances(lock: Lock, offline: bool, w: World, p: nat, v: World)
    requires p < |w.calls| == |v.calls|
  {
    var next := v.calls[p];
    match w.calls[p]
    case Waiting => Keeps(w, v) && (next == Hashed("") || (w.slot.File? && next == Hashing))
    case Hashing => v.slot == w.slot && next.Hashed? && HashReads(lock, w, next.hash, v.misread)
    case Hashed(hash) =>
      Keeps(w, v) && next == (if hash == lock.sha256 then Returned else if offline then Failed else Fetching)
    case Fetching => Keeps(w, v) && next.Fetched?
    case Fetched(t) => Keeps(w, v) && next == (if lock.Matches(t) then Linking(t, 1) else Failed)
    case Linking(t, n) =>
      if w.slot.Absent? then v.slot == File(t) && v.misread == w.misread && next == Returned
      else Keeps(w, v) && next == Refused(t, n)
    case Refused(t, n) =>
      v.slot == w.slot && next.Compared? && next == Compared(t, n, next.hash) && HashReads(lock, w, next.hash, v.misread)
    case Compared(t, n, hash) =>
      Keeps(w, v) && next == (if hash == lock.sha256 then Returned else if n >= ATTEMPTS then Failed else Removing(t, n))
    case Removing(t, n) =>
      if w.slot.Directory? then Keeps(w, v) && next == Failed
      else v.slot == Absent && v.misread == w.misread && next == Linking(t, n + 1)
    case Returned => false
    case Failed => false
  }

  /** One atomic step of call `p`; any operation may also fail, or the process be killed. */
  predicate Moves(lock: Lock, offline: bool, w: World, p: nat, v: World)
    requires p < |w.calls| == |v.calls|
  {
    || (v.calls[p] == Failed && Keeps(w, v) && !w.calls[p].Returned? && !w.calls[p].Failed?)
    || Advances(lock, offline, w, p, v)
  }

  predicate StepOf(lock: Lock, offline: seq<bool>, w: World, p: nat, v: World) {
    && p < |w.calls| == |v.calls| == |offline|
    && v.calls == w.calls[p := v.calls[p]]
    && Moves(lock, offline[p], w, p, v)
  }

  ghost predicate Step(lock: Lock, offline: seq<bool>, w: World, v: World) {
    exists p: nat :: StepOf(lock, offline, w, p, v)
  }

  predicate Starts(offline: seq<bool>, w: World) {
    && |w.calls| == |offline| && !w.misread
    && forall p :: 0 <= p < |w.calls| ==> w.calls[p] == Waiting
  }

  /** Every interleaving: the worlds a set of calls goes through, one step of one call at a time. */
  ghost predicate Run(lock: Lock, offline: seq<bool>, run: seq<World>) {
    && lock.Valid() && |run| > 0 && Starts(offline, run[0])
    && forall i :: 0 <= i < |run| - 1 ==> Step(lock, offline, run[i], run[i + 1])
  }

  lemma StepTaken(lock: Lock, offline: seq<bool>, run: seq<World>, i: nat) returns (p: nat)
    requires Run(lock, offline, run) && 0 < i < |run|
    ensures StepOf(lock, offline, run[i - 1], p, run[i])
  {
    hide StepOf;
    assert Step(lock, offline, run[i - 1], run[i - 1 + 1]);
    p :| StepOf(lock, offline, run[i - 1], p, run[i]);
  }

  // ----- The slot -----

  /** What the calls themselves leave in the slot: nothing, or a file with the locked hash. */
  predicate Clean(lock: Lock, slot: Slot) {
    slot.Absent? || lock.Verified(slot)
  }

  /** A temporary file past its check has the locked hash. */
  predicate Checked(lock: Lock, call: Call) {
    call.Linking? || call.Refused? || call.Compared? || call.Removing? ==> lock.Matches(call.temporary)
  }

  ghost predicate AllChecked(lock: Lock, w: World) {
    forall p :: 0 <= p < |w.calls| ==> Checked(lock, w.calls[p])
  }

  lemma {:induction false} TemporariesAreChecked(lock: Lock, offline: seq<bool>, run: seq<World>, i: nat)
    requires Run(lock, offline, run) && i < |run|
    ensures AllChecked(lock, run[i])
    decreases i
  {
    if i > 0 {
      TemporariesAreChecked(lock, offline, run, i - 1);
      assert Step(lock, offline, run[i - 1], run[i - 1 + 1]);
      var p: nat :| StepOf(lock, offline, run[i - 1], p, run[i]);
      forall q | 0 <= q < |run[i].calls| ensures Checked(lock, run[i].calls[q]) {
        assert Checked(lock, run[i - 1].calls[q]);
      }
    }
  }

  /** A step leaves the slot alone, or leaves it clean. */
  lemma StepCleans(lock: Lock, offline: seq<bool>, run: seq<World>, i: nat)
    requires Run(lock, offline, run) && i + 1 < |run|
    ensures run[i + 1].slot == run[i].slot || Clean(lock, run[i + 1].slot)
    ensures run[i].slot.Directory? ==> run[i + 1].slot == run[i].slot
  {
    TemporariesAreChecked(lock, offline, run, i);
    assert Step(lock, offline, run[i], run[i + 1]);
    var p: nat :| StepOf(lock, offline, run[i], p, run[i + 1]);
    assert Checked(lock, run[i].calls[p]);
  }

  /**
   * The slot only ever holds what it held at first, nothing, or a file with the locked hash; and
   * once what it held at first has gone, only the last two are left.
   */
  lemma {:induction false} SlotHistory(lock: Lock, offline: seq<bool>, run: seq<World>, i: nat, j: nat)
    requires Run(lock, offline, run) && i <= j < |run|
    ensures run[i].slot == run[0].slot || Clean(lock, run[i].slot)
    ensures run[i].slot != run[0].slot ==> Clean(lock, run[j].slot)
    ensures run[0].slot.Directory? ==> run[i].slot.Directory?
    decreases i + j
  {
    if i < j {
      SlotHistory(lock, offline, run, i, j - 1);
      StepCleans(lock, offline, run, j - 1);
    } else if i > 0 {
      SlotHistory(lock, offline, run, i - 1, i - 1);
      StepCleans(lock, offline, run, i - 1);
    }
  }

  // ----- What a returning call has seen -----

  /** Call `p` was under way while the slot held a file with the locked hash. */
  ghost predicate Saw(lock: Lock, run: seq<World>, p: nat, i: nat) {
    exists j :: 0 <= j <= i < |run| && SeenAt(lock, run[j], p)
  }

  predicate SeenAt(lock: Lock, w: World, p: nat) {
    p < |w.calls| && !w.calls[p].Waiting? && lock.Verified(w.slot)
  }

  predicate Knows(lock: Lock, call: Call) {
    call.Returned? || ((call.Hashed? || call.Compared?) && call.hash == lock.sha256)
  }

  lemma {:induction false} KnowsBecauseItSaw(lock: Lock, offline: seq<bool>, run: seq<World>, p: nat, i: nat)
    requires Run(lock, offline, run) && i < |run| && p < |offline|
    ensures |run[i].calls| == |offline|
    ensures Knows(lock, run[i].calls[p]) ==> Saw(lock, run, p, i)
    decreases i
  {
    if i > 0 {
      KnowsBecauseItSaw(lock, offline, run, p, i - 1);
      TemporariesAreChecked(lock, offline, run, i - 1);
      assert Step(lock, offline, run[i - 1], run[i - 1 + 1]);
      var q: nat :| StepOf(lock, offline, run[i - 1], q, run[i]);
      assert Checked(lock, run[i - 1].calls[p]);
      if Knows(lock, run[i].calls[p]) {
        if Knows(lock, run[i - 1].calls[p]) {
          var j :| 0 <= j <= i - 1 && SeenAt(lock, run[j], p);
        } else {
          assert SeenAt(lock, run[i], p);
        }
      }
    }
  }

  /** A call that returned put a file with the locked hash in the slot or read one there. */
  lemma ReturnedSawVerified(lock: Lock, offline: seq<bool>, run: seq<World>, p: nat, i: nat)
    requires Run(lock, offline, run) && i < |run| && p < |offline|
    ensures |run[i].calls| == |offline|
    ensures run[i].calls[p].Returned? ==> Saw(lock, run, p, i)
    ensures run[i].calls[p].Returned? ==> !run[0].slot.Directory?
  {
    KnowsBecauseItSaw(lock, offline, run, p, i);
    if run[i].calls[p].Returned? {
      var j :| 0 <= j <= i && SeenAt(lock, run[j], p);
      SlotHistory(lock, offline, run, j, j);
    }
  }

  // ----- When all calls are over -----

  /** The call has removed something and will put its own file there. */
  predicate Owes(call: Call) {
    call.Linking? || call.Failed?
  }

  ghost predicate SomeOwes(w: World) {
    exists p :: 0 <= p < |w.calls| && Owes(w.calls[p])
  }

  /** Whoever left the slot empty still owes it a file. */
  ghost predicate Owed(lock: Lock, w: World) {
    Clean(lock, w.slot) && (w.slot.Absent? ==> SomeOwes(w))
  }

  lemma VerifiedIsOwed(lock: Lock, w: World)
    requires lock.Verified(w.slot)
    ensures Owed(lock, w)
  {
  }

  /** A step that empties the slot is taken by a call that owes a file from then on. */
  lemma StepOwes(lock: Lock, offline: seq<bool>, w: World, p: nat, v: World)
    requires StepOf(lock, offline, w, p, v) && Owed(lock, w) && (v.slot == w.slot || Clean(lock, v.slot))
    ensures Owed(lock, v)
  {
    if v.slot.Absent? {
      if w.slot.Absent? {
        var q :| 0 <= q < |w.calls| && Owes(w.calls[q]);
        assert Owes(v.calls[q]);
      } else {
        assert Owes(v.calls[p]);
      }
    }
  }

  lemma {:induction false} AbsentMeansOwed(lock: Lock, offline: seq<bool>, run: seq<World>, i: nat, j: nat)
    requires Run(lock, offline, run) && i <= j < |run|
    requires lock.Verified(run[i].slot)
    ensures Owed(lock, run[j])
    decreases j
  {
    hide Run, StepOf, Owed, Clean, Lock.Verified;
    if i == j {
      VerifiedIsOwed(lock, run[i]);
    } else {
      AbsentMeansOwed(lock, offline, run, i, j - 1);
      StepCleans(lock, offline, run, j - 1);
      var p := StepTaken(lock, offline, run, j);
      StepOwes(lock, offline, run[j - 1], p, run[j]);
    }
  }

  /** When every call has returned, and none was cut short, the slot holds the locked archive. */
  lemma AllReturnedLeavesVerified(lock: Lock, offline: seq<bool>, run: seq<World>, i: nat)
    requires Run(lock, offline, run) && i < |run|
    requires |offline| > 0 && forall p :: 0 <= p < |run[i].calls| ==> run[i].calls[p].Returned?
    ensures lock.Verified(run[i].slot)
  {
    ReturnedSawVerified(lock, offline, run, 0, i);
    var j :| 0 <= j <= i && SeenAt(lock, run[j], 0);
    AbsentMeansOwed(lock, offline, run, j, i);
  }

  // ----- When a verified file can be removed -----

  /** With no corrupt file to begin with and no misread, a refused call finds a verified file. */
  predicate Settled(lock: Lock, call: Call) {
    && !call.Removing?
    && (call.Compared? ==> call.hash == lock.sha256)
  }

  ghost predicate Calm(lock: Lock, w: World) {
    || w.slot.Directory?
    || (Clean(lock, w.slot) && forall p :: 0 <= p < |w.calls| ==>
          Settled(lock, w.calls[p]) && (w.calls[p].Refused? ==> !w.slot.Absent?))
  }

  lemma {:induction false} CalmLasts(lock: Lock, offline: seq<bool>, run: seq<World>, i: nat)
    requires Run(lock, offline, run) && i < |run|
    requires !lock.Corrupt(run[0].slot) && !run[i].misread
    ensures Calm(lock, run[i])
    decreases i
  {
    if i > 0 {
      var p := StepTaken(lock, offline, run, i);
      CalmLasts(lock, offline, run, i - 1);
      TemporariesAreChecked(lock, offline, run, i - 1);
      hide Run;
      assert Checked(lock, run[i - 1].calls[p]);
    }
  }

  lemma {:induction false} MisreadLasts(lock: Lock, offline: seq<bool>, run: seq<World>, i: nat, j: nat)
    requires Run(lock, offline, run) && i <= j < |run| && !run[j].misread
    ensures !run[i].misread
    decreases j
  {
    if i < j {
      var w, v := run[j - 1], run[j - 1 + 1];
      assert Step(lock, offline, w, v);
      var p: nat :| StepOf(lock, offline, w, p, v);
      MisreadLasts(lock, offline, run, i, j - 1);
    }
  }

  /** Unless the slot began corrupt or a read failed, a file with the locked hash stays for good. */
  lemma {:induction false} VerifiedStays(lock: Lock, offline: seq<bool>, run: seq<World>, i: nat, j: nat)
    requires Run(lock, offline, run) && i <= j < |run|
    requires !lock.Corrupt(run[0].slot) && !run[j].misread
    requires lock.Verified(run[i].slot)
    ensures run[j].slot == run[i].slot
    decreases j
  {
    if i < j {
      MisreadLasts(lock, offline, run, j - 1, j);
      VerifiedStays(lock, offline, run, i, j - 1);
      CalmLasts(lock, offline, run, j - 1);
      var p := StepTaken(lock, offline, run, j);
      hide Run;
      assert Settled(lock, run[j - 1].calls[p]);
    }
  }

  /** A run in which a file with the locked hash was there, and was removed. */
  ghost predicate Loses(lock: Lock, offline: seq<bool>, run: seq<World>, i: nat, j: nat) {
    Run(lock, offline, run) && i <= j < |run| && lock.Verified(run[i].slot) && run[j].slot.Absent?
  }

  /** The same, starting from `slot` and with no read failing. */
  ghost predicate LosesFrom(lock: Lock, slot: Slot, offline: seq<bool>, run: seq<World>, i: nat, j: nat) {
    Loses(lock, offline, run, i, j) && run[0].slot == slot && !run[j].misread
  }

  /** The calls one caller goes through to its `rm`, having read `hash` from the slot twice. */
  function WayToRemoving(hash: string, good: Content): seq<Call> {
    [Waiting, Hashing, Hashed(hash), Fetching, Fetched(good), Linking(good, 1), Refused(good, 1),
     Compared(good, 1, hash), Removing(good, 1)]
  }

  lemma WayMoves(lock: Lock, w: World, p: nat, v: World, hash: string, good: Content, k: nat)
    requires k < 8 && lock.Matches(good) && hash != lock.sha256 && p < |w.calls| == |v.calls|
    requires w.slot == v.slot && w.slot.File?
    requires w.calls[p] == WayToRemoving(hash, good)[k] && v.calls[p] == WayToRemoving(hash, good)[k + 1]
    requires v.misread == w.misread || (k == 1 && v.misread)
    requires hash == if v.misread then "" else lock.digest(w.slot.content)
    requires v.misread && hash == lock.digest(w.slot.content) ==> w.misread
    ensures Moves(lock, false, w, p, v)
  {
  }

  /** Two callers race to replace a corrupt file: both reach `rm`, one replaces, the other removes. */
  function RaceWorld(lock: Lock, bad: Content, good: Content, i: nat): World
    requires i < 20
  {
    var way := WayToRemoving(lock.digest(bad), good);
    if i <= 8 then World(File(bad), [way[i], Waiting], false)
    else if i <= 16 then World(File(bad), [way[8], way[i - 8]], false)
    else if i == 17 then World(Absent, [Linking(good, 2), way[8]], false)
    else if i == 18 then World(File(good), [Returned, way[8]], false)
    else World(Absent, [Returned, Linking(good, 2)], false)
  }

  lemma RaceLoses(lock: Lock, bad: Content, good: Content)
    requires lock.Valid() && lock.Matches(good) && !lock.Matches(bad)
    ensures Loses(lock, [false, false], seq(20, i requires 0 <= i < 20 => RaceWorld(lock, bad, good, i)), 18, 19)
  {
    var run := seq(20, i requires 0 <= i < 20 => RaceWorld(lock, bad, good, i));
    forall i | 0 <= i < |run| - 1 ensures Step(lock, [false, false], run[i], run[i + 1]) {
      var w, v := run[i], run[i + 1];
      var p: nat := if i < 8 || i == 16 || i == 17 then 0 else 1;
      if i < 16 {
        WayMoves(lock, w, p, v, lock.digest(bad), good, if i < 8 then i else i - 8);
      }
      assert v.calls == w.calls[p := v.calls[p]];
      assert StepOf(lock, [false, false], w, p, v);
    }
  }

  /** A lone caller whose reads fail removes a file that has the locked hash. */
  function MisreadWorld(good: Content, i: nat): World
    requires i < 10
  {
    if i <= 8 then World(File(good), [WayToRemoving("", good)[i]], i >= 2)
    else World(Absent, [Linking(good, 2)], true)
  }

  lemma MisreadLoses(lock: Lock, good: Content)
    requires lock.Valid() && lock.Matches(good)
    ensures Loses(lock, [false], seq(10, i requires 0 <= i < 10 => MisreadWorld(good, i)), 0, 9)
  {
    var run := seq(10, i requires 0 <= i < 10 => MisreadWorld(good, i));
    forall i | 0 <= i < |run| - 1 ensures Step(lock, [false], run[i], run[i + 1]) {
      assert StepOf(lock, [false], run[i], 0, run[i + 1]);
    }
  }

  /** Without misreads, calls can lose a verified file exactly when they start from a corrupt one. */
  lemma LossNeedsCorruption(lock: Lock, slot: Slot, good: Content)
    requires lock.Valid() && lock.Matches(good)
    ensures lock.Corrupt(slot) <==>
      exists offline: seq<bool>, run: seq<World>, i: nat, j: nat :: LosesFrom(lock, slot, offline, run, i, j)
  {
    if lock.Corrupt(slot) {
      RaceLoses(lock, slot.content, good);
      var run := seq(20, i requires 0 <= i < 20 => RaceWorld(lock, slot.content, good, i));
      assert LosesFrom(lock, slot, [false, false], run, 18, 19);
    } else {
      forall offline: seq<bool>, run: seq<World>, i: nat, j: nat | LosesFrom(lock, slot, offline, run, i, j)
        ensures false
      {
        VerifiedStays(lock, offline, run, i, j);
      }
    }
  }

  // ----- Every call ends -----

  /** How many more steps a call can take at most. */
  function StepsLeft(call: Call): nat {
    match call
    case Waiting => 16
    case Hashing => 15
    case Hashed(_) => 14
    case Fetching => 13
    case Fetched(_) => 12
    case Linking(_, n) => if n < ATTEMPTS then 3 + 4 * (ATTEMPTS - n) else 3
    case Refused(_, n) => if n < ATTEMPTS then 2 + 4 * (ATTEMPTS - n) else 2
    case Compared(_, n, _) => if n < ATTEMPTS then 1 + 4 * (ATTEMPTS - n) else 1
    case Removing(_, n) => if n < ATTEMPTS then 4 * (ATTEMPTS - n) else 4
    case Returned => 0
    case Failed => 0
  }

  function AllStepsLeft(calls: seq<Call>): nat {
    if calls == [] then 0 else StepsLeft(calls[0]) + AllStepsLeft(calls[1..])
  }

  lemma {:induction false} OneMovesAll(calls: seq<Call>, p: nat, next: Call)
    requires p < |calls|
    ensures AllStepsLeft(calls[p := next]) == AllStepsLeft(calls) - StepsLeft(calls[p]) + StepsLeft(next)
  {
    if p == 0 {
      assert calls[0 := next][1..] == calls[1..];
    } else {
      assert calls[p := next][1..] == calls[1..][p - 1 := next];
      OneMovesAll(calls[1..], p - 1, next);
    }
  }

  lemma {:induction false} AtFirst(calls: seq<Call>)
    requires forall p :: 0 <= p < |calls| ==> calls[p] == Waiting
    ensures AllStepsLeft(calls) == 16 * |calls|
  {
    if calls != [] {
      AtFirst(calls[1..]);
    }
  }

  /** An attempt is counted only up to three, so `Removing` always leads to another link. */
  predicate Bounded(call: Call) {
    && (call.Removing? ==> 1 <= call.attempt < ATTEMPTS)
    && (call.Linking? || call.Refused? || call.Compared? ==> 1 <= call.attempt <= ATTEMPTS)
  }

  lemma MoveCounts(lock: Lock, offline: bool, w: World, p: nat, v: World)
    requires p < |w.calls| == |v.calls| && Moves(lock, offline, w, p, v) && Bounded(w.calls[p])
    ensures Bounded(v.calls[p]) && StepsLeft(v.calls[p]) < StepsLeft(w.calls[p])
  {
  }

  /** No interleaving keeps calls busy for ever: `n` calls take at most `16 * n` steps together. */
  lemma {:induction false} RunsAreBounded(lock: Lock, offline: seq<bool>, run: seq<World>, i: nat)
    requires Run(lock, offline, run) && i < |run|
    ensures forall p :: 0 <= p < |run[i].calls| ==> Bounded(run[i].calls[p])
    ensures i + AllStepsLeft(run[i].calls) <= 16 * |offline|
    decreases i
  {
    if i == 0 {
      AtFirst(run[0].calls);
    } else {
      hide StepsLeft, Moves, Bounded, AllStepsLeft;
      RunsAreBounded(lock, offline, run, i - 1);
      var w, v := run[i - 1], run[i];
      var p := StepTaken(lock, offline, run, i);
      hide Run;
      MoveCounts(lock, offline[p], w, p, v);
      OneMovesAll(w.calls, p, v.calls[p]);
    }
  }

  // ----- Downloading -----

  /** How one attempt to download ends; a failed one may leave part of the file behind. */
  datatype Attempt = Delivered(content: Content) | Broken(partial: Option<Content>, retryable: bool) | TimedOut

  predicate Retried(attempt: Attempt) {
    attempt.Broken? && attempt.retryable
  }

  /** Attempt `k`, counted from 0, delivers, and every one before it may be retried. */
  ghost predicate DeliversAt(attempts: seq<Attempt>, k: nat) {
    k < |attempts| && attempts[k].Delivered? && forall j :: 0 <= j < k ==> Retried(attempts[j])
  }

  /** The wait after attempt `k`, in milliseconds. */
  function Delay(k: nat): nat {
    if 2000 * Pow2(k) < 16000 then 2000 * Pow2(k) else 16000
  }

  /** The first wait is two seconds; each further one doubles, up to sixteen. */
  lemma DelaysDouble(k: nat)
    ensures Delay(0) == 2000
    ensures Delay(k + 1) == if Delay(k) < 8000 then 2 * Delay(k) else 16000
  {
    assert Pow2(k + 1) == 2 * Pow2(k);
  }

  /** So many attempts have failed in ways that may be retried, each followed by its wait. */
  ghost predicate Waited(attempts: seq<Attempt>, waits: seq<nat>) {
    |waits| <= |attempts| && forall i :: 0 <= i < |waits| ==> waits[i] == Delay(i) && Retried(attempts[i])
  }

  /**
   * Given how each of the attempts the limit allows would end: succeeds exactly when one delivers after
   * retryable failures only; the destination then holds just what was delivered, and otherwise nothing,
   * whatever it held before. It gives up only on a failure that may not be retried, or after the last attempt.
   */
  method DownloadFileWithRetry(attempts: seq<Attempt>, before: Option<Content>)
    returns (ok: bool, destination: Option<Content>, waits: seq<nat>)
    requires |attempts| > 0
    ensures ok <==> exists k: nat :: DeliversAt(attempts, k)
    ensures forall k: nat :: DeliversAt(attempts, k) ==> destination == Some(attempts[k].content)
    ensures !ok ==> destination == None
    ensures |waits| < |attempts| && Waited(attempts, waits)
    ensures if ok then DeliversAt(attempts, |waits|) else !Retried(attempts[|waits|]) || |waits| + 1 == |attempts|
  {
    ok, destination, waits := false, before, [];
    var attempt := 0;
    assert Waited(attempts, waits);
    hide Waited, Delay;
    while attempt < |attempts|
      invariant 0 <= attempt < |attempts| && |waits| == attempt && Waited(attempts, waits)
      decreases |attempts| - attempt
    {
      destination := None;
      var outcome := attempts[attempt];
      forall k: nat
        ensures k < attempt ==> !DeliversAt(attempts, k)
        ensures !Retried(outcome) ==> (DeliversAt(attempts, k) <==> k == attempt && outcome.Delivered?)
      {
      }
      if outcome.Delivered? {
        assert DeliversAt(attempts, attempt);
        return true, Some(outcome.content), waits;
      }
      destination := if outcome.Broken? then outcome.partial else None;
      destination := None;
      if outcome.TimedOut? || !outcome.retryable || attempt + 1 >= |attempts| {
        return false, destination, waits;
      }
      waits := waits + [Delay(attempt)];
      attempt := attempt + 1;
    }
  }

  // ----- One call on its own -----

  /** A run of one call that took the slot from `first` to `slot` and the call to `call`. */
  ghost predicate Traces(lock: Lock, offline: bool, run: seq<World>, first: Slot, slot: Slot, call: Call) {
    Run(lock, [offline], run) && run[0].slot == first && run[|run| - 1] == World(slot, [call], false)
  }

  function Appended(run: seq<World>, slot: Slot, call: Call): seq<World> {
    run + [World(slot, [call], false)]
  }

  /** The machine takes the step the code has just taken. */
  lemma TraceExtends(lock: Lock, offline: bool, run: seq<World>, first: Slot, was: Slot, call: Call, now: Slot, next: Call)
    requires Traces(lock, offline, run, first, was, call)
    requires Moves(lock, offline, World(was, [call], false), 0, World(now, [next], false))
    ensures Traces(lock, offline, Appended(run, now, next), first, now, next)
  {
    var w, v := run[|run| - 1], World(now, [next], false);
    assert StepOf(lock, [offline], w, 0, v);
    forall i | 0 <= i < |run + [v]| - 1 ensures Step(lock, [offline], (run + [v])[i], (run + [v])[i + 1]) {
      if i < |run| - 1 {
        assert Step(lock, [offline], run[i], run[i + 1]);
      }
    }
  }

  class CachePath {
    const lock: Lock
    var slot: Slot

    constructor (lock: Lock, slot: Slot)
      ensures this.lock == lock && this.slot == slot
    {
      this.lock := lock;
      this.slot := slot;
    }

    function Hash(): string
      reads this
    {
      if slot.File? then lock.digest(slot.content) else ""
    }

    /** `link`: fails when the path holds anything. */
    method Link(temporary: Content) returns (linked: bool)
      modifies this
      ensures linked == old(slot).Absent?
      ensures slot == if linked then File(temporary) else old(slot)
    {
      linked := slot.Absent?;
      if linked {
        slot := File(temporary);
      }
    }

    /** `rm` with `force`: fails on a directory only. */
    method Remove() returns (removed: bool)
      modifies this
      ensures removed == !old(slot).Directory?
      ensures slot == if removed then Absent else old(slot)
    {
      removed := !slot.Directory?;
      if removed {
        slot := Absent;
      }
    }

    /** The publishing loop, entered with a checked temporary file. */
    method Publish(temporary: Content, ghost offline: bool, ghost before: seq<World>)
      returns (ok: bool, ghost run: seq<World>)
      requires lock.Valid() && lock.Matches(temporary)
      requires Traces(lock, offline, before, slot, slot, Linking(temporary, 1))
      modifies this
      ensures Traces(lock, offline, run, old(slot), slot, if ok then Returned else Failed)
      ensures ok <==> !old(slot).Directory?
      ensures slot == if ok && !lock.Verified(old(slot)) then File(temporary) else old(slot)
    {
      hide Traces, Appended;
      run := before;
      var attempt := 1;
      while attempt <= ATTEMPTS
        invariant 1 <= attempt <= 2
        invariant Traces(lock, offline, run, old(slot), slot, Linking(temporary, attempt))
        invariant attempt == 1 ==> slot == old(slot)
        invariant attempt == 2 ==> slot.Absent? && lock.Corrupt(old(slot))
        decreases ATTEMPTS - attempt
      {
        ghost var was := slot;
        var linked := Link(temporary);
        if linked {
          run := Append(offline, run, old(slot), was, Linking(temporary, attempt), Returned);
          return true, run;
        }
        run := Append(offline, run, old(slot), slot, Linking(temporary, attempt), Refused(temporary, attempt));
        var hash := Hash();
        run := Append(offline, run, old(slot), slot, Refused(temporary, attempt), Compared(temporary, attempt, hash));
        if hash == lock.sha256 {
          run := Append(offline, run, old(slot), slot, Compared(temporary, attempt, hash), Returned);
          return true, run;
        }
        if attempt >= ATTEMPTS {
          // Only another call can bring this one so far; the machine above gives up here.
          assert false;
        }
        run := Append(offline, run, old(slot), slot, Compared(temporary, attempt, hash), Removing(temporary, attempt));
        was := slot;
        var removed := Remove();
        if !removed {
          run := Append(offline, run, old(slot), slot, Removing(temporary, attempt), Failed);
          return false, run;
        }
        run := Append(offline, run, old(slot), was, Removing(temporary, attempt), Linking(temporary, attempt + 1));
        attempt := attempt + 1;
      }
    }

    /**
     * Undisturbed, a call succeeds exactly when the slot is verified already or it may and does
     * fetch the locked content and no directory is in the way; a failing call changes nothing. What
     * it does is a run of the machine above.
     */
    method PrepareArchive(offline: bool, fetched: Option<Content>) returns (ok: bool, ghost run: seq<World>)
      requires lock.Valid()
      modifies this
      ensures Traces(lock, offline, run, old(slot), slot, if ok then Returned else Failed)
      ensures ok <==> (lock.Verified(old(slot)) ||
                       (!offline && fetched.Some? && lock.Matches(fetched.value) && !old(slot).Directory?))
      ensures slot == if ok && !lock.Verified(old(slot)) then File(fetched.value) else old(slot)
    {
      run := [World(slot, [Waiting], false)];
      assert Traces(lock, offline, run, slot, slot, Waiting);
      hide Traces, Appended, Run;
      var present, hash := slot.File?, "";
      if present {
        hash := Hash();
        run := Append(offline, run, slot, slot, Waiting, Hashing);
        run := Append(offline, run, slot, slot, Hashing, Hashed(hash));
      } else {
        run := Append(offline, run, slot, slot, Waiting, Hashed(""));
      }
      if hash == lock.sha256 {
        run := Append(offline, run, slot, slot, Hashed(hash), Returned);
        return true, run;
      }
      if offline {
        run := Append(offline, run, slot, slot, Hashed(hash), Failed);
        return false, run;
      }
      run := Append(offline, run, slot, slot, Hashed(hash), Fetching);
      if fetched.None? {
        run := Append(offline, run, slot, slot, Fetching, Failed);
        return false, run;
      }
      var temporary := fetched.value;
      run := Append(offline, run, slot, slot, Fetching, Fetched(temporary));
      if lock.digest(temporary) != lock.sha256 {
        run := Append(offline, run, slot, slot, Fetched(temporary), Failed);
        return false, run;
      }
      run := Append(offline, run, slot, slot, Fetched(temporary), Linking(temporary, 1));
      ok, run := Publish(temporary, offline, run);
    }

    ghost method Append(offline: bool, run: seq<World>, first: Slot, was: Slot, call: Call, next: Call)
      returns (longer: seq<World>)
      requires Traces(lock, offline, run, first, was, call)
      requires Moves(lock, offline, World(was, [call], false), 0, World(slot, [next], false))
      ensures Traces(lock, offline, longer, first, slot, next)
    {
      TraceExtends(lock, offline, run, first, was, call, slot, next);
      longer := Appended(run, slot, next);
    }
  }
}
