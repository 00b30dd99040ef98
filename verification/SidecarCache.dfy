/** The desktop sidecar cache: verified hits, rebuilds, and crashes at any step of either. */
module SidecarCache {
  import opened Bytes

  /** What identifies a build: fingerprint of its sources, target, and runner compatibility. */
  datatype Inputs = Inputs(fingerprint: string, target: string, compatibility: string)

  datatype Entry = DirectoryEntry(mode: nat) | FileEntry(mode: nat, size: nat, sha256: string)
  type Inventory = map<string, Entry>

  /** The content of `metadata.json`. */
  datatype Record = Record(inputs: Inputs, entries: Inventory)

  /** The cache directory: payload, metadata, unfinished metadata, and the names of anything else. */
  datatype Root = Root(payload: Option<Inventory>, metadata: Option<Record>, temporary: bool, others: set<string>)

  const EMPTY := Root(None, None, false, {})

  const METADATA_LIMIT := 16 * 1024 * 1024

  /** The check of a payload against its descriptor, executable and backends, and the size of metadata as a file. */
  datatype Checks = Checks(accepts: (Inventory, Inputs) -> bool, size: Record -> nat) {
    predicate Fits(r: Record) { size(r) <= METADATA_LIMIT }
  }

  /**
   * `validate`: the two expected names, metadata of a limited size, an acceptable payload, and metadata
   * that repeats the inputs and the inventory.
   */
  predicate Validates(checks: Checks, root: Root, inputs: Inputs) {
    && root.payload.Some? && root.metadata.Some? && !root.temporary && root.others == {}
    && checks.Fits(root.metadata.value)
    && checks.accepts(root.payload.value, inputs)
    && root.metadata.value == Record(inputs, root.payload.value)
  }

  /** Where a preparation stands. */
  datatype Phase =
    | Idle
    | Started(inputs: Inputs)
    | Valid(inputs: Inputs)
    | Wiping(inputs: Inputs)
    | Building(inputs: Inputs)
    | Checked(inputs: Inputs, entries: Inventory)
    | Confirmed(inputs: Inputs, entries: Inventory)
    | Written(inputs: Inputs, entries: Inventory)

  /** What preparations reported: a hit on the directory as it then was, or a build and what it recorded. */
  datatype Event = Hit(inputs: Inputs, root: Root) | Built(record: Record)

  /** `current` is what reading the inputs would give now. */
  datatype World = World(root: Root, phase: Phase, current: Inputs, log: seq<Event>)

  /** A directory or file inside `root` may have gone; nothing else has changed. */
  predicate Removes(root: Root, less: Root) {
    && (less.payload == None || (root.payload.Some? && less.payload.value.Keys <= root.payload.value.Keys
        && forall path :: path in less.payload.value ==> less.payload.value[path] == root.payload.value[path]))
    && (less.metadata == None || less.metadata == root.metadata)
    && (less.temporary ==> root.temporary) && less.others <= root.others
  }

  /** One step of a preparation. */
  predicate Proceeds(checks: Checks, w: World, v: World) {
    && v.current == w.current
    && match w.phase
       case Idle => v == w.(phase := Started(w.current))
       case Started(inputs) =>
         v == w.(phase := if Validates(checks, w.root, inputs) then Valid(inputs) else Wiping(inputs))
       case Valid(inputs) =>
         v == if w.current == inputs then w.(phase := Idle, log := w.log + [Hit(inputs, w.root)])
              else w.(phase := Idle)
       case Wiping(inputs) =>
         if w.root == EMPTY then v == w.(phase := Building(inputs))
         else v == w.(root := v.root) && Removes(w.root, v.root)
       case Building(inputs) =>
         || (v == w.(root := v.root) && v.root.metadata == w.root.metadata)
         || (w.root.payload.Some? && checks.accepts(w.root.payload.value, inputs)
             && v == w.(phase := Checked(inputs, w.root.payload.value)))
       case Checked(inputs, entries) =>
         && w.current == inputs && w.root == Root(w.root.payload, None, false, {})
         && v == w.(phase := Confirmed(inputs, entries))
       case Confirmed(inputs, entries) =>
         || v == w.(root := w.root.(temporary := true))
         || v == w.(phase := Written(inputs, entries), root := w.root.(temporary := true))
       case Written(inputs, entries) =>
         v == w.(phase := Idle, root := w.root.(temporary := false, metadata := Some(Record(inputs, entries))),
                 log := w.log + [Built(Record(inputs, entries))])
  }

  /** The process fails or is killed; an orderly failure also removes its temporary file. */
  predicate Stops(w: World, v: World) {
    w.phase != Idle && (v == w.(phase := Idle) || v == w.(phase := Idle, root := w.root.(temporary := false)))
  }

  /** The inputs change at any time; between preparations so may the payload. */
  predicate Disturbs(w: World, v: World) {
    || v == w.(current := v.current)
    || (w.phase == Idle && v == w.(root := w.root.(payload := v.root.payload)))
  }

  predicate Step(checks: Checks, w: World, v: World) {
    Proceeds(checks, w, v) || Stops(w, v) || Disturbs(w, v)
  }

  /** Metadata found in a directory is the record of an earlier build, wherever that was done. */
  function Earlier(root: Root): seq<Event> {
    if root.metadata.Some? then [Built(root.metadata.value)] else []
  }

  /**
   * Any sequence of preparations, crashes and disturbances, beginning with any directory, empty,
   * left behind or restored.
   */
  ghost predicate Run(checks: Checks, run: seq<World>) {
    && |run| > 0 && run[0].phase == Idle && run[0].log == Earlier(run[0].root)
    && forall i :: 0 <= i < |run| - 1 ==> Step(checks, run[i], run[i + 1])
  }

  // ----- What metadata stands for -----

  function LastBuilt(log: seq<Event>): Option<Record> {
    if log == [] then None
    else if log[|log| - 1].Built? then Some(log[|log| - 1].record)
    else LastBuilt(log[..|log| - 1])
  }

  /**
   * The directory holds an accepted payload and the metadata of the last build, which records just that
   * payload for these inputs in at most 16 MiB, and nothing else.
   */
  predicate Vouched(checks: Checks, last: Option<Record>, root: Root, inputs: Inputs) {
    && root.payload.Some? && checks.accepts(root.payload.value, inputs)
    && last == Some(Record(inputs, root.payload.value)) && checks.size(last.value) <= 16 * 1024 * 1024
    && root == Root(root.payload, last, false, {})
  }

  predicate Invariant(checks: Checks, w: World) {
    && (w.root.metadata.Some? ==> LastBuilt(w.log) == w.root.metadata)
    && match w.phase
       case Valid(inputs) => Vouched(checks, LastBuilt(w.log), w.root, inputs)
       case Building(_) => w.root.metadata.None?
       case Checked(inputs, entries) => w.root.payload == Some(entries) && checks.accepts(entries, inputs)
       case Confirmed(inputs, entries) =>
         && checks.accepts(entries, inputs) && w.root == Root(Some(entries), None, w.root.temporary, {})
       case Written(inputs, entries) =>
         && checks.accepts(entries, inputs) && w.root == Root(Some(entries), None, true, {})
       case _ => true
  }

  lemma {:induction false} InvariantHolds(checks: Checks, run: seq<World>, i: nat)
    requires Run(checks, run) && i < |run|
    ensures Invariant(checks, run[i])
    decreases i
  {
    if i > 0 {
      InvariantHolds(checks, run, i - 1);
      assert Step(checks, run[i - 1], run[i - 1 + 1]);
    }
  }

  /** Each hit in the log was on the outcome of the last build before it, with nothing missing, changed or added. */
  ghost predicate HitsAreBuilt(checks: Checks, log: seq<Event>) {
    forall k :: 0 <= k < |log| && log[k].Hit? ==> Vouched(checks, LastBuilt(log[..k]), log[k].root, log[k].inputs)
  }

  lemma StepLogs(checks: Checks, w: World, v: World)
    requires Invariant(checks, w) && HitsAreBuilt(checks, w.log) && Step(checks, w, v)
    ensures HitsAreBuilt(checks, v.log)
  {
    if v.log != w.log {
      assert v.log[..|w.log|] == w.log;
      hide Vouched;
      forall k | 0 <= k < |v.log| && v.log[k].Hit?
        ensures Vouched(checks, LastBuilt(v.log[..k]), v.log[k].root, v.log[k].inputs)
      {
        if k < |w.log| {
          assert v.log[..k] == w.log[..k];
        }
      }
    }
  }

  /** No crash, partial deletion, tampering or change of inputs makes a hit on anything else. */
  lemma {:induction false} HitIsLastBuild(checks: Checks, run: seq<World>, i: nat)
    requires Run(checks, run) && i < |run|
    ensures HitsAreBuilt(checks, run[i].log)
    decreases i
  {
    if i > 0 {
      HitIsLastBuild(checks, run, i - 1);
      InvariantHolds(checks, run, i - 1);
      assert Step(checks, run[i - 1], run[i - 1 + 1]);
      StepLogs(checks, run[i - 1], run[i]);
    }
  }

  // ----- What a build leaves -----

  /** After a build, and with nothing disturbed, a preparation validates exactly for the same inputs, if the metadata fits. */
  lemma BuiltThenValid(checks: Checks, run: seq<World>, i: nat, r: Record, inputs: Inputs)
    requires Run(checks, run) && i + 1 < |run| && run[i + 1].log == run[i].log + [Built(r)]
    ensures run[i + 1].root == Root(Some(r.entries), Some(r), false, {}) && checks.accepts(r.entries, r.inputs)
    ensures Validates(checks, run[i + 1].root, inputs) <==> inputs == r.inputs && checks.size(r) <= 16 * 1024 * 1024
  {
    InvariantHolds(checks, run, i);
    assert Step(checks, run[i], run[i + 1]);
    assert run[i + 1].log != run[i].log;
    assert run[i + 1].log[|run[i].log|] == Built(r);
  }

  /** Metadata is written at any size but not read above the limit: a large build is built again by the next preparation. */
  lemma OversizedIsRebuilt(checks: Checks, run: seq<World>, i: nat, r: Record, w: World, v: World)
    requires Run(checks, run) && i + 1 < |run| && run[i + 1].log == run[i].log + [Built(r)] && !checks.Fits(r)
    requires w.root == run[i + 1].root && w.phase == Started(r.inputs) && Proceeds(checks, w, v)
    ensures v.phase == Wiping(r.inputs)
  {
    BuiltThenValid(checks, run, i, r, r.inputs);
  }

  /** A preparation that starts on a directory no build has finished in rebuilds it, whatever is left there. */
  lemma UnfinishedIsRebuilt(checks: Checks, run: seq<World>, i: nat)
    requires Run(checks, run) && i + 1 < |run| && Proceeds(checks, run[i], run[i + 1]) && run[i].phase.Started?
    ensures run[i + 1].phase.Valid? <==> Validates(checks, run[i].root, run[i].phase.inputs)
    ensures run[i + 1].phase.Valid? ==> LastBuilt(run[i].log) == Some(Record(run[i].phase.inputs, run[i].root.payload.value))
    ensures LastBuilt(run[i].log).None? ==> run[i + 1].phase.Wiping?
  {
    InvariantHolds(checks, run, i);
  }

  // ----- One preparation from start to end -----

  /** Steps that lead from `first` to `last`. */
  ghost predicate Leads(checks: Checks, trace: seq<World>, first: World, last: World) {
    && |trace| > 0 && trace[0] == first && trace[|trace| - 1] == last
    && forall i :: 0 <= i < |trace| - 1 ==> Step(checks, trace[i], trace[i + 1])
  }

  datatype Outcome = HitOutcome | BuiltOutcome | Failure

  class CacheDirectory {
    const checks: Checks
    var root: Root

    constructor (checks: Checks, root: Root)
      ensures this.checks == checks && this.root == root
    {
      this.checks, this.root := checks, root;
    }

    ghost function Now(phase: Phase, inputs: Inputs, log: seq<Event>): World
      reads this
    {
      World(root, phase, inputs, log)
    }

    ghost method Append(trace: seq<World>, first: World, last: World, next: World) returns (longer: seq<World>)
      requires Leads(checks, trace, first, last) && Step(checks, last, next)
      ensures Leads(checks, longer, first, next)
    {
      longer := trace + [next];
    }

    /** Removes one name after another. */
    method Wipe(inputs: Inputs, ghost log: seq<Event>, ghost before: seq<World>, ghost first: World)
      returns (ghost trace: seq<World>)
      requires Leads(checks, before, first, Now(Wiping(inputs), inputs, log))
      modifies this
      ensures root == EMPTY && Leads(checks, trace, first, Now(Wiping(inputs), inputs, log))
    {
      hide Leads;
      trace := before;
      ghost var was := Now(Wiping(inputs), inputs, log);
      while root.others != {}
        invariant Leads(checks, trace, first, Now(Wiping(inputs), inputs, log))
        decreases |root.others|
      {
        was := Now(Wiping(inputs), inputs, log);
        var name :| name in root.others;
        root := root.(others := root.others - {name});
        trace := Append(trace, first, was, Now(Wiping(inputs), inputs, log));
      }
      if root != EMPTY {
        was := Now(Wiping(inputs), inputs, log);
        root := EMPTY;
        trace := Append(trace, first, was, Now(Wiping(inputs), inputs, log));
      }
    }

    /**
     * Undisturbed, a preparation is a run of the steps above. It reports a hit exactly when the
     * directory validates, and then changes nothing; otherwise it rebuilds the directory exactly when
     * the builder produces a payload that passes the check, and else leaves no metadata behind.
     */
    method PrepareDesktopSidecar(inputs: Inputs, produced: Option<Inventory>, ghost log: seq<Event>)
      returns (outcome: Outcome, ghost trace: seq<World>)
      modifies this
      ensures outcome == HitOutcome <==> Validates(checks, old(root), inputs)
      ensures outcome == HitOutcome ==> root == old(root)
      ensures outcome == BuiltOutcome <==>
              !Validates(checks, old(root), inputs) && produced.Some? && checks.accepts(produced.value, inputs)
      ensures outcome == BuiltOutcome ==> root == Root(produced, Some(Record(inputs, produced.value)), false, {})
      ensures outcome == Failure ==> root.metadata.None?
      ensures Leads(checks, trace, old(Now(Idle, inputs, log)),
                    Now(Idle, inputs, log + match outcome
                                            case HitOutcome => [Hit(inputs, root)]
                                            case BuiltOutcome => [Built(root.metadata.value)]
                                            case Failure => []))
    {
      ghost var first, was := Now(Idle, inputs, log), Now(Started(inputs), inputs, log);
      trace := [first];
      assert Leads(checks, trace, first, first);
      hide Leads;
      trace := Append(trace, first, first, was);
      if Validates(checks, root, inputs) {
        trace := Append(trace, first, was, Now(Valid(inputs), inputs, log));
        trace := Append(trace, first, Now(Valid(inputs), inputs, log), Now(Idle, inputs, log + [Hit(inputs, root)]));
        return HitOutcome, trace;
      }
      trace := Append(trace, first, was, Now(Wiping(inputs), inputs, log));
      trace := Wipe(inputs, log, trace, first);
      outcome, trace := Rebuild(inputs, produced, log, trace, first);
    }

    /** Builds in the emptied directory, and records what passes the check. */
    method Rebuild(inputs: Inputs, produced: Option<Inventory>, ghost log: seq<Event>, ghost before: seq<World>, ghost first: World)
      returns (outcome: Outcome, ghost trace: seq<World>)
      requires root == EMPTY && Leads(checks, before, first, Now(Wiping(inputs), inputs, log))
      modifies this
      ensures outcome == if produced.Some? && checks.accepts(produced.value, inputs) then BuiltOutcome else Failure
      ensures outcome == BuiltOutcome ==> root == Root(produced, Some(Record(inputs, produced.value)), false, {})
      ensures outcome == Failure ==> root.metadata.None?
      ensures Leads(checks, trace, first,
                    Now(Idle, inputs, log + if outcome == BuiltOutcome then [Built(root.metadata.value)] else []))
    {
      hide Leads;
      ghost var was := Now(Building(inputs), inputs, log);
      trace := Append(before, first, Now(Wiping(inputs), inputs, log), was);
      root := root.(payload := produced);
      trace := Append(trace, first, was, Now(Building(inputs), inputs, log));
      if produced.None? || !checks.accepts(produced.value, inputs) {
        assert log + [] == log;
        trace := Append(trace, first, Now(Building(inputs), inputs, log), Now(Idle, inputs, log));
        return Failure, trace;
      }
      var entries := produced.value;
      trace := Append(trace, first, Now(Building(inputs), inputs, log), Now(Checked(inputs, entries), inputs, log));
      was := Now(Confirmed(inputs, entries), inputs, log);
      trace := Append(trace, first, Now(Checked(inputs, entries), inputs, log), was);
      root := root.(temporary := true);
      trace := Append(trace, first, was, Now(Written(inputs, entries), inputs, log));
      was := Now(Written(inputs, entries), inputs, log);
      root := root.(temporary := false, metadata := Some(Record(inputs, entries)));
      trace := Append(trace, first, was, Now(Idle, inputs, log + [Built(Record(inputs, entries))]));
      outcome := BuiltOutcome;
    }
  }
}
