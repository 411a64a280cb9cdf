/**
 * One prune against any number of rollbacks, promotions and publications over one pointer file and
 * one directory of releases, as a state machine over their file-system steps.
 */
module PruneProtocol {
  import opened Outcomes
  import opened Releases
  import Sorting

  datatype Pointer = Missing | Invalid | Names(digest: Digest)

  /** Where prune is; a queue holds the candidates left, the one in work first. */
  datatype Phase =
    | Idle
    | Scanning(current: Digest)
    | Choosing(queue: seq<Digest>)
    | Checked(queue: seq<Digest>)
    | Moved(queue: seq<Digest>)
    | Restoring(queue: seq<Digest>, stop: bool)
    | Removing(queue: seq<Digest>)
    | Stopped

  datatype Event =
    | ReadPointer
    | Scan(entries: seq<Entry>, keep: Option<nat>, cutoff: Option<int>)
    | ReadBefore(digest: Digest)
    | Rename(digest: Digest)
    | ReadAfter(digest: Digest)
    | Restore(digest: Digest)
    | Delete(digest: Digest)
    | Verify(who: nat, digest: Digest)
    | Write(who: nat)
    | Publish(digest: Digest)
    | Disturb(left: Pointer)

  /** A switch that has verified its target and not written the pointer yet. */
  datatype Pending = Pending(target: Digest, verifiedAt: nat)

  datatype Written = Written(verifiedAt: nat, writtenAt: nat)

  /** The last four fields only record when things happened; no step reads the last three. */
  datatype State = State(
    pointer: Pointer,
    present: set<Digest>,
    phase: Phase,
    removed: seq<Digest>,
    skipped: seq<Digest>,
    clock: nat,
    pending: map<nat, Pending>,
    written: Option<Written>,
    renamedAt: map<Digest, nat>,
    rereadAt: map<Digest, nat>)

  predicate HasQueue(phase: Phase) {
    phase.Choosing? || phase.Checked? || phase.Moved? || phase.Restoring? || phase.Removing?
  }

  predicate InWork(phase: Phase, digest: Digest) {
    HasQueue(phase) && phase.queue != [] && phase.queue[0] == digest
  }

  /** The release is out of its place: renamed and neither back nor gone. */
  predicate OutOfPlace(phase: Phase, digest: Digest) {
    InWork(phase, digest) && (phase.Moved? || phase.Restoring? || phase.Removing?)
  }

  function StepReadPointer(s: State): State {
    s.(phase := if s.pointer.Names? then Scanning(s.pointer.digest) else Stopped)
  }

  function StepScan(s: State, entries: seq<Entry>, keep: Option<nat>, cutoff: Option<int>): State
    requires s.phase.Scanning?
  {
    match Candidates(ScanReleases(entries), s.phase.current, keep, cutoff)
    case None => s.(phase := Stopped)
    case Some(queue) => s.(phase := Choosing(queue))
  }

  function StepReadBefore(s: State, d: Digest): State
    requires InWork(s.phase, d)
  {
    if !s.pointer.Names? then s.(phase := Stopped)
    else if s.pointer.digest == d then s.(phase := Choosing(s.phase.queue[1..]), skipped := s.skipped + [d])
    else s.(phase := Checked(s.phase.queue))
  }

  function StepRename(s: State, d: Digest): State
    requires InWork(s.phase, d)
  {
    if d !in s.present then s.(phase := Stopped)
    else s.(phase := Moved(s.phase.queue), present := s.present - {d}, renamedAt := s.renamedAt[d := s.clock])
  }

  function StepReadAfter(s: State, d: Digest): State
    requires InWork(s.phase, d)
  {
    var queue := s.phase.queue;
    var read := s.(rereadAt := s.rereadAt[d := s.clock]);
    if s.pointer.Invalid? then read.(phase := Restoring(queue, true))
    else if s.pointer.Missing? || s.pointer.digest == d then read.(phase := Restoring(queue, false))
    else read.(phase := Removing(queue))
  }

  function StepRestore(s: State, d: Digest): State
    requires InWork(s.phase, d) && s.phase.Restoring?
  {
    var back := s.(present := s.present + {d});
    if s.phase.stop then back.(phase := Stopped)
    else back.(phase := Choosing(s.phase.queue[1..]), skipped := s.skipped + [d])
  }

  function StepDelete(s: State, d: Digest): State
    requires InWork(s.phase, d)
  {
    s.(phase := Choosing(s.phase.queue[1..]), removed := s.removed + [d])
  }

  /** The state after an event, or none when the event cannot happen. */
  function Next(s: State, e: Event): Option<State> {
    var after := match e
      case ReadPointer => if s.phase.Idle? then Some(StepReadPointer(s)) else None
      case Scan(entries, keep, cutoff) =>
        if s.phase.Scanning? && OnDisk(entries, s.present) then Some(StepScan(s, entries, keep, cutoff)) else None
      case ReadBefore(d) => if s.phase.Choosing? && InWork(s.phase, d) then Some(StepReadBefore(s, d)) else None
      case Rename(d) => if s.phase.Checked? && InWork(s.phase, d) then Some(StepRename(s, d)) else None
      case ReadAfter(d) => if s.phase.Moved? && InWork(s.phase, d) then Some(StepReadAfter(s, d)) else None
      case Restore(d) => if s.phase.Restoring? && InWork(s.phase, d) then Some(StepRestore(s, d)) else None
      case Delete(d) => if s.phase.Removing? && InWork(s.phase, d) then Some(StepDelete(s, d)) else None
      case Verify(who, d) => if d in s.present then Some(s.(pending := s.pending[who := Pending(d, s.clock)])) else None
      case Write(who) =>
        if who in s.pending
        then Some(s.(pointer := Names(s.pending[who].target),
          written := Some(Written(s.pending[who].verifiedAt, s.clock)), pending := s.pending - {who}))
        else None
      case Publish(d) => if OutOfPlace(s.phase, d) then None else Some(s.(present := s.present + {d}))
      case Disturb(left) => if left.Names? then None else Some(s.(pointer := left, written := None));
    match after
    case None => None
    case Some(t) => Some(t.(clock := s.clock + 1))
  }

  /** A scan lists each directory once and only what is there. */
  predicate OnDisk(entries: seq<Entry>, present: set<Digest>) {
    && (forall i, j :: 0 <= i < j < |entries| ==> entries[i].digest != entries[j].digest)
    && (forall i :: 0 <= i < |entries| ==> entries[i].digest in present)
  }

  function Run(s: State, events: seq<Event>): Option<State> {
    if events == [] then Some(s)
    else match Run(s, events[..|events| - 1])
      case None => None
      case Some(t) => Next(t, events[|events| - 1])
  }

  /** Before prune: nothing happened yet, and a pointer that names a release names one that is there. */
  ghost predicate Initial(s: State) {
    && s.phase.Idle? && s.clock == 0 && s.pending == map[] && s.written.None? && s.renamedAt == map[]
       && s.rereadAt == map[]
    && s.removed == [] && s.skipped == []
    && (s.pointer.Names? ==> s.pointer.digest in s.present)
  }

  // ----- invariants

  /** Prune's queue holds different releases; all but the one out of place are where they belong. */
  ghost predicate QueueInv(s: State) {
    HasQueue(s.phase) ==>
      && Distinct(s.phase.queue)
      && (!s.phase.Choosing? ==> s.phase.queue != [])
      && (forall i ::
         0 <= i < |s.phase.queue| ==> s.phase.queue[i] in s.present || OutOfPlace(s.phase, s.phase.queue[i]))
      && (s.phase.Moved? || s.phase.Restoring? || s.phase.Removing? ==>
         s.phase.queue[0] !in s.present && s.phase.queue[0] in s.renamedAt)
  }

  ghost predicate ClockInv(s: State) {
    && (forall who :: who in s.pending ==> s.pending[who].verifiedAt < s.clock)
    && (forall d :: d in s.renamedAt ==> s.renamedAt[d] < s.clock)
    && (forall d :: d in s.rereadAt ==> s.rereadAt[d] < s.clock)
    && (s.written.Some? ==> s.written.value.verifiedAt < s.clock && s.written.value.writtenAt < s.clock)
  }

  /** A verified target that is gone was renamed after it was verified. */
  ghost predicate TargetGone(s: State, target: Digest, verifiedAt: nat) {
    target !in s.present ==> target in s.renamedAt && verifiedAt < s.renamedAt[target]
  }

  /** A renamed release that is not back has been followed by a second read, once that read is over. */
  ghost predicate Reread(s: State, d: Digest) {
    d !in s.present && d in s.renamedAt && !(s.phase.Moved? && InWork(s.phase, d)) ==>
      d in s.rereadAt && s.renamedAt[d] < s.rereadAt[d]
  }

  ghost predicate PendingInv(s: State) {
    && (forall who :: who in s.pending ==> TargetGone(s, s.pending[who].target, s.pending[who].verifiedAt))
    && (forall d :: d in s.renamedAt ==> Reread(s, d))
  }

  predicate BeingDecided(s: State, d: Digest) {
    InWork(s.phase, d) && (s.phase.Moved? || s.phase.Restoring?)
  }

  /** A pointer to a missing release was written by a switch that verified it before it was renamed. */
  ghost predicate PointerInv(s: State) {
    s.pointer.Names? ==>
      var d := s.pointer.digest;
      match s.written
      case None =>
        && d in s.present
        && (s.phase.Scanning? ==> s.phase.current == d)
        && (HasQueue(s.phase) ==> d !in s.phase.queue)
      case Some(w) =>
        && TargetGone(s, d, w.verifiedAt)
        && (d !in s.present && !BeingDecided(s, d) ==> d in s.rereadAt && s.rereadAt[d] < w.writtenAt)
  }

  ghost predicate Inv(s: State) {
    QueueInv(s) && ClockInv(s) && PendingInv(s) && PointerInv(s)
  }

  lemma {:induction false} InitialInv(s: State)
    requires Initial(s)
    ensures Inv(s)
  {
  }

  /** What a scan of what is on disk selects: different releases that are there, the current one not among them. */
  lemma {:induction false} ScanSelects(entries: seq<Entry>, present: set<Digest>, current: Digest, keep: Option<nat>,
      cutoff: Option<int>)
    requires OnDisk(entries, present) && Candidates(ScanReleases(entries), current, keep, cutoff).Some?
    ensures var queue := Candidates(ScanReleases(entries), current, keep, cutoff).value;
            Distinct(queue) && current !in queue && forall i :: 0 <= i < |queue| ==> queue[i] in present
  {
    ListingIsDetermined(entries, entries);
    var listed := ScanReleases(entries);
    var queue := Candidates(listed, current, keep, cutoff).value;
    CandidatesAreExact(listed, current, keep, cutoff);
    forall i | 0 <= i < |queue|
      ensures queue[i] in present
    {
      CandidatesAreListed(listed, current, keep, cutoff, queue[i]);
      var x :| x in listed && x.valid && x.digest == queue[i];
      assert x in multiset(listed);
      assert x in entries;
    }
  }

  lemma {:induction false} ScanKeepsInv(s: State, e: Event, t: State)
    requires Inv(s) && e.Scan? && Next(s, e) == Some(t)
    ensures Inv(t)
  {
    if t.phase.Choosing? {
      ScanSelects(e.entries, s.present, s.phase.current, e.keep, e.cutoff);
    }
    RereadKept(s, t);
    PendingKept(s, t);
  }

  lemma {:induction false} PendingKept(s: State, t: State)
    requires PendingInv(s) && s.pending == t.pending
    requires forall d :: d in s.renamedAt ==> d in t.renamedAt && s.renamedAt[d] <= t.renamedAt[d]
    requires forall d :: d !in t.present && d in s.present ==> d in t.renamedAt && t.renamedAt[d] == s.clock
    requires forall who :: who in s.pending ==> s.pending[who].verifiedAt < s.clock
    requires forall d :: d in t.renamedAt ==> Reread(t, d)
    ensures PendingInv(t)
  {
    forall who | who in t.pending
      ensures TargetGone(t, t.pending[who].target, t.pending[who].verifiedAt)
    {
      assert TargetGone(s, s.pending[who].target, s.pending[who].verifiedAt);
    }
  }

  lemma {:induction false} RereadKept(s: State, t: State)
    requires PendingInv(s) && s.renamedAt == t.renamedAt && s.rereadAt == t.rereadAt && s.present <= t.present
    requires forall d :: s.phase.Moved? && InWork(s.phase, d) ==> t.phase.Moved? && InWork(t.phase, d)
    ensures forall d :: d in t.renamedAt ==> Reread(t, d)
  {
    forall d | d in t.renamedAt
      ensures Reread(t, d)
    {
      assert Reread(s, d);
    }
  }

  lemma {:induction false} ReadPointerKeepsInv(s: State, e: Event, t: State)
    requires Inv(s) && e.ReadPointer? && Next(s, e) == Some(t)
    ensures Inv(t)
  {
    RereadKept(s, t);
    PendingKept(s, t);
  }

  lemma {:induction false} ReadBeforeKeepsInv(s: State, e: Event, t: State)
    requires Inv(s) && e.ReadBefore? && Next(s, e) == Some(t)
    ensures Inv(t)
  {
    ReadBeforeChooses(s, e, t);
    RereadKept(s, t);
    PendingKept(s, t);
  }

  lemma {:induction false} ReadBeforeChooses(s: State, e: Event, t: State)
    requires Inv(s) && e.ReadBefore? && Next(s, e) == Some(t)
    ensures QueueInv(t) && PointerInv(t) && ClockInv(t)
  {
    ReadBeforeKeepsQueue(s, e, t);
    ReadBeforeKeepsPointer(s, e, t);
  }

  lemma {:induction false} ReadBeforeKeepsQueue(s: State, e: Event, t: State)
    requires QueueInv(s) && ClockInv(s) && e.ReadBefore? && Next(s, e) == Some(t)
    ensures QueueInv(t) && ClockInv(t)
  {
    ReadBeforeKeepsQueueInv(s, e.digest, t);
    ReadBeforeIs(s, e.digest, t);
  }

  lemma {:induction false} ReadBeforeKeepsQueueInv(s: State, d: Digest, t: State)
    requires QueueInv(s) && Next(s, ReadBefore(d)) == Some(t)
    ensures QueueInv(t)
  {
    if t.phase.Choosing? {
      assert forall i :: 0 <= i < |t.phase.queue| ==> t.phase.queue[i] == s.phase.queue[i + 1];
    }
  }

  lemma {:induction false} ReadBeforeKeepsPointer(s: State, e: Event, t: State)
    requires QueueInv(s) && PointerInv(s) && e.ReadBefore? && Next(s, e) == Some(t)
    ensures PointerInv(t)
  {
  }

  lemma {:induction false} RenameKeepsInv(s: State, e: Event, t: State)
    requires Inv(s) && e.Rename? && Next(s, e) == Some(t)
    ensures Inv(t)
  {
    RenameMoves(s, e, t);
    forall d | d in t.renamedAt
      ensures Reread(t, d)
    {
      assert d in s.renamedAt ==> Reread(s, d);
    }
    PendingKept(s, t);
  }

  lemma {:induction false} RenameMoves(s: State, e: Event, t: State)
    requires Inv(s) && e.Rename? && Next(s, e) == Some(t)
    ensures t.phase == Moved(s.phase.queue) && QueueInv(t) && PointerInv(t) && ClockInv(t)
  {
    assert s.phase.queue[0] in s.present;
  }

  lemma {:induction false} ReadAfterKeepsInv(s: State, e: Event, t: State)
    requires Inv(s) && e.ReadAfter? && Next(s, e) == Some(t)
    ensures Inv(t)
  {
    ReadAfterDecides(s, e, t);
    ReadAfterRereads(s, e, t);
    PendingKept(s, t);
  }

  lemma {:induction false} ReadAfterRereads(s: State, e: Event, t: State)
    requires PendingInv(s) && ClockInv(s) && e.ReadAfter? && Next(s, e) == Some(t)
    ensures forall d :: d in t.renamedAt ==> Reread(t, d)
  {
    forall d | d in t.renamedAt
      ensures Reread(t, d)
    {
      assert Reread(s, d);
      assert s.phase.Moved? && InWork(s.phase, d) ==> d == e.digest;
    }
  }

  lemma {:induction false} ReadAfterDecides(s: State, e: Event, t: State)
    requires Inv(s) && e.ReadAfter? && Next(s, e) == Some(t)
    ensures QueueInv(t) && PointerInv(t) && ClockInv(t)
  {
    ReadAfterKeepsQueue(s, e, t);
    ReadAfterKeepsPointer(s, e, t);
  }

  lemma {:induction false} ReadAfterKeepsQueue(s: State, e: Event, t: State)
    requires QueueInv(s) && e.ReadAfter? && Next(s, e) == Some(t)
    ensures QueueInv(t)
  {
  }

  lemma {:induction false} ReadAfterKeepsPointer(s: State, e: Event, t: State)
    requires QueueInv(s) && ClockInv(s) && PointerInv(s) && e.ReadAfter? && Next(s, e) == Some(t)
    ensures PointerInv(t) && ClockInv(t)
  {
  }

  lemma {:induction false} RestoreKeepsInv(s: State, e: Event, t: State)
    requires Inv(s) && e.Restore? && Next(s, e) == Some(t)
    ensures Inv(t)
  {
    RereadKept(s, t);
    PendingKept(s, t);
  }

  lemma {:induction false} DeleteKeepsInv(s: State, e: Event, t: State)
    requires Inv(s) && e.Delete? && Next(s, e) == Some(t)
    ensures Inv(t)
  {
    RereadKept(s, t);
    PendingKept(s, t);
  }

  lemma {:induction false} OthersKeepInv(s: State, e: Event, t: State)
    requires Inv(s) && Next(s, e) == Some(t)
    requires e.Verify? || e.Write? || e.Publish? || e.Disturb?
    ensures Inv(t)
  {
    forall who | who in t.pending
      ensures TargetGone(t, t.pending[who].target, t.pending[who].verifiedAt)
    {
      assert who in s.pending ==> TargetGone(s, s.pending[who].target, s.pending[who].verifiedAt);
    }
    forall d | d in t.renamedAt
      ensures Reread(t, d)
    {
      assert Reread(s, d);
    }
  }

  lemma {:induction false} StepKeepsInv(s: State, e: Event, t: State)
    requires Inv(s) && Next(s, e) == Some(t)
    ensures Inv(t)
  {
    if e.Scan? {
      ScanKeepsInv(s, e, t);
    } else if e.Verify? || e.Write? || e.Publish? || e.Disturb? {
      OthersKeepInv(s, e, t);
    } else if e.Rename? {
      RenameKeepsInv(s, e, t);
    } else if e.ReadAfter? {
      ReadAfterKeepsInv(s, e, t);
    } else if e.Restore? {
      RestoreKeepsInv(s, e, t);
    } else if e.Delete? {
      DeleteKeepsInv(s, e, t);
    } else if e.ReadPointer? {
      ReadPointerKeepsInv(s, e, t);
    } else {
      ReadBeforeKeepsInv(s, e, t);
    }
  }

  lemma {:induction false} RunKeepsInv(s: State, events: seq<Event>, t: State)
    requires Initial(s) && Run(s, events) == Some(t)
    ensures Inv(t) && t.clock == |events|
  {
    if events == [] {
      InitialInv(s);
    } else {
      var before := Run(s, events[..|events| - 1]).value;
      RunKeepsInv(s, events[..|events| - 1], before);
      StepKeepsInv(before, events[|events| - 1], t);
    }
  }

  // ----- the recorded times are those of the events

  ghost predicate At(events: seq<Event>, i: nat, e: Event) {
    i < |events| && events[i] == e
  }

  predicate PutsBack(e: Event, d: Digest) {
    e == Publish(d) || e == Restore(d)
  }

  /** Nothing put the release back at position `from` or later. */
  ghost predicate StaysAway(events: seq<Event>, from: nat, d: Digest) {
    forall i :: from <= i < |events| ==> !PutsBack(events[i], d)
  }

  /** The switch verified nothing at the positions from `from` up to `to`. */
  ghost predicate Resolved(events: seq<Event>, from: nat, to: nat, who: nat) {
    forall i :: from <= i < to && i < |events| ==> !(events[i].Verify? && events[i].who == who)
  }

  /** Nobody wrote or disturbed the pointer at position `from` or later. */
  ghost predicate Untouched(events: seq<Event>, from: nat) {
    forall i :: from <= i < |events| ==> !events[i].Write? && !events[i].Disturb?
  }

  /** The last rename of each release, and nothing put back since what is still away. */
  ghost predicate Renames(events: seq<Event>, times: map<Digest, nat>, present: set<Digest>) {
    forall d :: d in times ==> At(events, times[d], Rename(d)) && (d !in present ==> StaysAway(events, times[d], d))
  }

  ghost predicate Rereads(events: seq<Event>, times: map<Digest, nat>) {
    forall d :: d in times ==> At(events, times[d], ReadAfter(d))
  }

  /** The last verification of each switch that has not written. */
  ghost predicate Verifies(events: seq<Event>, pending: map<nat, Pending>) {
    forall who :: who in pending ==>
      && At(events, pending[who].verifiedAt, Verify(who, pending[who].target))
      && Resolved(events, pending[who].verifiedAt + 1, |events|, who)
  }

  /** The write the pointer is from: the switch's last verification before it, and nothing to the pointer after it. */
  ghost predicate WrittenBy(events: seq<Event>, who: nat, d: Digest, verified: nat, written: nat) {
    && verified < written && At(events, verified, Verify(who, d)) && At(events, written, Write(who))
    && Resolved(events, verified + 1, written, who) && Untouched(events, written + 1)
  }

  ghost predicate Writes(events: seq<Event>, pointer: Pointer, written: Option<Written>) {
    written.Some? ==>
      && pointer.Names?
      && exists who :: WrittenBy(events, who, pointer.digest, written.value.verifiedAt, written.value.writtenAt)
  }

  ghost predicate Told(events: seq<Event>, s: State) {
    && Verifies(events, s.pending) && Renames(events, s.renamedAt, s.present)
    && Rereads(events, s.rereadAt) && Writes(events, s.pointer, s.written)
  }

  /** What one event changes in the records. */
  lemma {:induction false} RecordsOfStep(s: State, e: Event, t: State)
    requires Next(s, e) == Some(t)
    ensures t.renamedAt == s.renamedAt || (e.Rename? && t.renamedAt == s.renamedAt[e.digest := s.clock])
    ensures t.rereadAt == s.rereadAt || (e.ReadAfter? && t.rereadAt == s.rereadAt[e.digest := s.clock])
    ensures t.clock == s.clock + 1
  {
    if e.Rename? || e.ReadAfter? {
      RecordingStep(s, e, t);
    } else {
      SilentStep(s, e, t);
    }
  }

  lemma {:induction false} RecordingStep(s: State, e: Event, t: State)
    requires Next(s, e) == Some(t) && (e.Rename? || e.ReadAfter?)
    ensures t.renamedAt == s.renamedAt || (e.Rename? && t.renamedAt == s.renamedAt[e.digest := s.clock])
    ensures t.rereadAt == s.rereadAt || (e.ReadAfter? && t.rereadAt == s.rereadAt[e.digest := s.clock])
    ensures t.clock == s.clock + 1
  {
  }

  lemma {:induction false} SilentStep(s: State, e: Event, t: State)
    requires Next(s, e) == Some(t) && !e.Rename? && !e.ReadAfter?
    ensures t.renamedAt == s.renamedAt && t.rereadAt == s.rereadAt && t.clock == s.clock + 1
  {
  }

  lemma {:induction false} SwitchesOfStep(s: State, e: Event, t: State)
    requires Next(s, e) == Some(t)
    ensures e.Verify? ==> t.pending == s.pending[e.who := Pending(e.digest, s.clock)]
    ensures e.Write? ==> e.who in s.pending && t.pending == s.pending - {e.who}
    ensures e.Write? ==>
            t.pointer == Names(s.pending[e.who].target)
            && t.written == Some(Written(s.pending[e.who].verifiedAt, s.clock))
    ensures e.Disturb? ==> t.written.None?
    ensures !e.Verify? && !e.Write? ==> t.pending == s.pending
    ensures !e.Write? && !e.Disturb? ==> t.pointer == s.pointer && t.written == s.written
  {
  }

  lemma {:induction false} EarlierEventsStay(earlier: seq<Event>, e: Event)
    ensures forall i, x :: At(earlier, i, x) ==> At(earlier + [e], i, x)
    ensures At(earlier + [e], |earlier|, e)
  {
  }

  lemma {:induction false} VerifiesGrow(earlier: seq<Event>, e: Event, before: map<nat, Pending>,
      after: map<nat, Pending>)
    requires Verifies(earlier, before)
    requires e.Verify? ==> after == before[e.who := Pending(e.digest, |earlier|)]
    requires !e.Verify? ==> forall who :: who in after ==> who in before && after[who] == before[who]
    ensures Verifies(earlier + [e], after)
  {
    EarlierEventsStay(earlier, e);
    forall who | who in after
      ensures At(earlier + [e], after[who].verifiedAt, Verify(who, after[who].target))
      ensures Resolved(earlier + [e], after[who].verifiedAt + 1, |earlier + [e]|, who)
    {
      if !(e.Verify? && e.who == who) {
        assert At(earlier, before[who].verifiedAt, Verify(who, before[who].target));
        assert Resolved(earlier, before[who].verifiedAt + 1, |earlier|, who);
      }
    }
  }

  /** What an event does to the directory. */
  lemma {:induction false} PresenceOfStep(s: State, e: Event, t: State, d: Digest)
    requires Next(s, e) == Some(t)
    ensures PutsBack(e, d) ==> d in t.present
    ensures d in s.present && d !in t.present ==> e == Rename(d) && t.renamedAt == s.renamedAt[d := s.clock]
    ensures d in s.renamedAt && !(e.Rename? && e.digest == d) ==> d in t.renamedAt && t.renamedAt[d] == s.renamedAt[d]
  {
  }

  lemma {:induction false} RenamesGrow(earlier: seq<Event>, e: Event, s: State, t: State)
    requires Renames(earlier, s.renamedAt, s.present) && s.clock == |earlier| && Next(s, e) == Some(t)
    requires t.renamedAt == s.renamedAt || (e.Rename? && t.renamedAt == s.renamedAt[e.digest := s.clock])
    ensures Renames(earlier + [e], t.renamedAt, t.present)
  {
    EarlierEventsStay(earlier, e);
    forall d | d in t.renamedAt
      ensures At(earlier + [e], t.renamedAt[d], Rename(d))
      ensures d !in t.present ==> StaysAway(earlier + [e], t.renamedAt[d], d)
    {
      PresenceOfStep(s, e, t, d);
      if t.renamedAt[d] != |earlier| {
        assert At(earlier, s.renamedAt[d], Rename(d)) && (d !in s.present ==> StaysAway(earlier, s.renamedAt[d], d));
      }
    }
  }

  lemma {:induction false} RereadsGrow(earlier: seq<Event>, e: Event, s: State, t: State)
    requires Rereads(earlier, s.rereadAt) && s.clock == |earlier|
    requires t.rereadAt == s.rereadAt || (e.ReadAfter? && t.rereadAt == s.rereadAt[e.digest := s.clock])
    ensures Rereads(earlier + [e], t.rereadAt)
  {
    EarlierEventsStay(earlier, e);
    forall d | d in t.rereadAt
      ensures At(earlier + [e], t.rereadAt[d], ReadAfter(d))
    {
      assert d in s.rereadAt ==> At(earlier, s.rereadAt[d], ReadAfter(d));
    }
  }

  lemma {:induction false} WritesGrow(earlier: seq<Event>, e: Event, s: State, t: State)
    requires Writes(earlier, s.pointer, s.written) && Verifies(earlier, s.pending) && s.clock == |earlier|
    requires e.Write? ==>
             e.who in s.pending && t.pointer == Names(s.pending[e.who].target)
             && t.written == Some(Written(s.pending[e.who].verifiedAt, s.clock))
    requires !e.Write? ==> t.written.None? || (!e.Disturb? && t.pointer == s.pointer && t.written == s.written)
    ensures Writes(earlier + [e], t.pointer, t.written)
  {
    EarlierEventsStay(earlier, e);
    if e.Write? {
      var p := s.pending[e.who];
      assert At(earlier, p.verifiedAt, Verify(e.who, p.target))
        && Resolved(earlier, p.verifiedAt + 1, |earlier|, e.who);
      assert WrittenBy(earlier + [e], e.who, p.target, p.verifiedAt, |earlier|);
    } else if t.written.Some? {
      var w := s.written.value;
      var who :| WrittenBy(earlier, who, s.pointer.digest, w.verifiedAt, w.writtenAt);
      assert WrittenBy(earlier + [e], who, t.pointer.digest, w.verifiedAt, w.writtenAt);
    }
  }

  lemma {:induction false} RunIsTold(s: State, events: seq<Event>, t: State)
    requires Initial(s) && Run(s, events) == Some(t)
    ensures Told(events, t) && t.clock == |events|
  {
    if events != [] {
      var earlier, e := events[..|events| - 1], events[|events| - 1];
      assert events == earlier + [e];
      var before := Run(s, earlier).value;
      RunIsTold(s, earlier, before);
      RecordsOfStep(before, e, t);
      SwitchesOfStep(before, e, t);
      VerifiesGrow(earlier, e, before.pending, t.pending);
      RenamesGrow(earlier, e, before, t);
      RereadsGrow(earlier, e, before, t);
      WritesGrow(earlier, e, before, t);
    }
  }

  // ----- the theorem

  /**
   * The pointer is from a switch that last verified the release before prune renamed it and wrote after
   * prune's second read, and nothing put the release back since it was renamed.
   */
  ghost predicate LateSwitch(events: seq<Event>, d: Digest) {
    exists who: nat, verified: nat, renamed: nat, reread: nat, written: nat ::
      LateAt(events, d, who, verified, renamed, reread, written)
  }

  ghost predicate LateAt(events: seq<Event>, d: Digest, who: nat, verified: nat, renamed: nat, reread: nat,
      written: nat)
  {
    && verified < renamed < reread < written
    && WrittenBy(events, who, d, verified, written)
    && At(events, renamed, Rename(d)) && StaysAway(events, renamed, d)
    && At(events, reread, ReadAfter(d))
  }

  ghost predicate Dangles(s: State, d: Digest) {
    s.pointer == Names(d) && d !in s.present
  }

  lemma {:induction false} DanglingWasLate(s: State, events: seq<Event>, t: State, d: Digest)
    requires Initial(s) && Run(s, events) == Some(t)
    requires Dangles(t, d) && !BeingDecided(t, d)
    ensures LateSwitch(events, d)
  {
    RunKeepsInv(s, events, t);
    RunIsTold(s, events, t);
    var w := t.written.value;
    assert Reread(t, d);
    var who :| WrittenBy(events, who, d, w.verifiedAt, w.writtenAt);
    assert w.verifiedAt < t.renamedAt[d] < t.rereadAt[d] < w.writtenAt;
    assert At(events, t.renamedAt[d], Rename(d)) && At(events, t.rereadAt[d], ReadAfter(d));
    assert LateAt(events, d, who, w.verifiedAt, t.renamedAt[d], t.rereadAt[d], w.writtenAt);
  }

  /** The state a run has reached before its last events. */
  lemma {:induction false} RunPrefix(s: State, events: seq<Event>, t: State, k: nat) returns (u: State)
    requires Run(s, events) == Some(t) && k <= |events|
    ensures Run(s, events[..k]) == Some(u)
    decreases |events| - k
  {
    if k == |events| {
      assert events[..k] == events;
      u := t;
    } else {
      var v := RunPrefix(s, events, t, k + 1);
      assert events[..k + 1][..k] == events[..k];
      u := Run(s, events[..k]).value;
    }
  }

  /** What a switch verified last is what it writes. */
  lemma {:induction false} VerifiedStaysPending(s: State, events: seq<Event>, t: State, who: nat, d: Digest,
      verified: nat)
    requires Run(s, events) == Some(t)
    requires At(events, verified, Verify(who, d)) && Resolved(events, verified + 1, |events|, who)
    requires who in t.pending
    ensures t.pending[who].target == d
    decreases |events|
  {
    var last := |events| - 1;
    var before := RunPrefix(s, events, t, last);
    SwitchesOfStep(before, events[last], t);
    if verified < last {
      assert events[last] != Verify(who, d);
      assert Resolved(events[..last], verified + 1, last, who) && At(events[..last], verified, Verify(who, d));
      VerifiedStaysPending(s, events[..last], before, who, d, verified);
    }
  }

  /** An untouched pointer stays what the write made it. */
  lemma {:induction false} WrittenPointerStays(s: State, events: seq<Event>, t: State, who: nat, d: Digest,
      verified: nat, written: nat)
    requires Run(s, events) == Some(t) && WrittenBy(events, who, d, verified, written)
    ensures t.pointer == Names(d)
    decreases |events|
  {
    var last := |events| - 1;
    var before := RunPrefix(s, events, t, last);
    SwitchesOfStep(before, events[last], t);
    var earlier := events[..last];
    if written == last {
      assert At(earlier, verified, Verify(who, d)) && Resolved(earlier, verified + 1, |earlier|, who);
      VerifiedStaysPending(s, earlier, before, who, d, verified);
    } else {
      assert WrittenBy(earlier, who, d, verified, written);
      assert !events[last].Write? && !events[last].Disturb?;
      WrittenPointerStays(s, earlier, before, who, d, verified, written);
    }
  }

  lemma {:induction false} RenamedIsAway(s: State, e: Event, t: State)
    requires Next(s, e) == Some(t) && e.Rename?
    ensures e.digest !in t.present
  {
  }

  /** A renamed release that nothing puts back is missing. */
  lemma {:induction false} AwayStaysAway(s: State, events: seq<Event>, t: State, d: Digest, renamed: nat)
    requires Run(s, events) == Some(t) && At(events, renamed, Rename(d)) && StaysAway(events, renamed, d)
    ensures d !in t.present
    decreases |events|
  {
    var last := |events| - 1;
    var before := RunPrefix(s, events, t, last);
    if renamed == last {
      RenamedIsAway(before, events[last], t);
    } else {
      assert At(events[..last], renamed, Rename(d)) && StaysAway(events[..last], renamed, d);
      AwayStaysAway(s, events[..last], before, d, renamed);
      assert !PutsBack(events[last], d);
      OnlyPuttingBackBrings(before, events[last], t, d);
    }
  }

  lemma {:induction false} OnlyPuttingBackBrings(s: State, e: Event, t: State, d: Digest)
    requires Next(s, e) == Some(t)
    ensures d in t.present ==> d in s.present || PutsBack(e, d)
  {
  }

  lemma {:induction false} LateSwitchDangles(s: State, events: seq<Event>, t: State, d: Digest)
    requires Run(s, events) == Some(t) && LateSwitch(events, d)
    ensures Dangles(t, d)
  {
    var who: nat, verified: nat, renamed: nat, reread: nat, written: nat :|
      LateAt(events, d, who, verified, renamed, reread, written);
    WrittenPointerStays(s, events, t, who, d, verified, written);
    AwayStaysAway(s, events, t, d, renamed);
  }

  /**
   * In every run `current.json` refers to a missing release exactly while prune is deciding about that
   * release, between its rename and its restoration, or because of a late switch.
   */
  lemma {:induction false} DanglingIsTransientOrLate(s: State, events: seq<Event>, t: State, d: Digest)
    requires Initial(s) && Run(s, events) == Some(t)
    ensures Dangles(t, d) <==> (t.pointer == Names(d) && BeingDecided(t, d)) || LateSwitch(events, d)
  {
    RunKeepsInv(s, events, t);
    if Dangles(t, d) && !BeingDecided(t, d) {
      DanglingWasLate(s, events, t, d);
    }
    if LateSwitch(events, d) {
      LateSwitchDangles(s, events, t, d);
    }
  }

  /** When prune is about to delete a release, it is the current one exactly after a late switch to it. */
  lemma {:induction false} CurrentIsDeletedOnlyLate(s: State, events: seq<Event>, d: Digest, t: State)
    requires Initial(s) && Run(s, events) == Some(t) && Next(t, Delete(d)).Some?
    ensures t.pointer == Names(d) <==> LateSwitch(events, d)
  {
    RunKeepsInv(s, events, t);
    DanglingIsTransientOrLate(s, events, t, d);
  }

  predicate IsPruneStep(e: Event) {
    e.ReadPointer? || e.Scan? || e.ReadBefore? || e.Rename? || e.ReadAfter? || e.Restore? || e.Delete?
  }

  lemma {:induction false} OthersLeavePhase(s: State, events: seq<Event>, t: State)
    requires Run(s, events) == Some(t) && forall i :: 0 <= i < |events| ==> !IsPruneStep(events[i])
    ensures t.phase == s.phase && t.skipped == s.skipped
  {
    if events != [] {
      var before := Run(s, events[..|events| - 1]).value;
      OthersLeavePhase(s, events[..|events| - 1], before);
      assert !IsPruneStep(events[|events| - 1]);
    }
  }

  /**
   * When prune's second read finds the renamed release current, or finds no readable pointer, the
   * next thing prune can do, whatever others do meanwhile, is to put the release back.
   */
  lemma {:induction false} RenamedCurrentIsRestored(s: State, d: Digest, read: State, others: seq<Event>, t: State,
      e: Event, after: State)
    requires s.phase.Moved? && InWork(s.phase, d) && (s.pointer == Names(d) || !s.pointer.Names?)
    requires Next(s, ReadAfter(d)) == Some(read)
    requires Run(read, others) == Some(t) && forall i :: 0 <= i < |others| ==> !IsPruneStep(others[i])
    requires IsPruneStep(e) && Next(t, e) == Some(after)
    ensures e == Restore(d) && d in after.present
  {
    OthersLeavePhase(read, others, t);
  }

  /** The event is the only thing prune can do next. */
  ghost predicate MustBeNext(s: State, e: Event) {
    Next(s, e).Some? && forall other :: IsPruneStep(other) && Next(s, other).Some? ==> other == e
  }

  /** Prune has stopped for good. */
  ghost predicate HasStopped(s: State) {
    forall e :: IsPruneStep(e) ==> Next(s, e).None?
  }

  /**
   * What prune's first read of the pointer decides: a release found current is skipped and stays where
   * it is, without a readable pointer prune stops, and any other candidate is renamed next.
   */
  lemma {:induction false} FirstReadDecides(s: State, d: Digest, t: State)
    requires QueueInv(s) && Next(s, ReadBefore(d)) == Some(t)
    ensures t.present == s.present && t.pointer == s.pointer && t.removed == s.removed
    ensures s.pointer == Names(d) ==> t.skipped == s.skipped + [d] && t.phase == Choosing(s.phase.queue[1..])
    ensures s.pointer.Names? && s.pointer != Names(d) ==> MustBeNext(t, Rename(d)) && t.skipped == s.skipped
    ensures !s.pointer.Names? ==> HasStopped(t)
  {
    ReadBeforeIs(s, d, t);
    if t.phase == Checked(s.phase.queue) {
      OnlyRenameFollows(t, d);
    }
  }

  lemma {:induction false} ReadBeforeIs(s: State, d: Digest, t: State)
    requires Next(s, ReadBefore(d)) == Some(t)
    ensures InWork(s.phase, d) && t == StepReadBefore(s, d).(clock := s.clock + 1)
  {
  }

  lemma {:induction false} OnlyRenameFollows(t: State, d: Digest)
    requires t.phase.Checked? && InWork(t.phase, d)
    ensures MustBeNext(t, Rename(d))
  {
  }

  /**
   * What its second read decides, the release renamed: put back where it is current or the pointer
   * unreadable, else deleted.
   */
  lemma {:induction false} SecondReadDecides(s: State, d: Digest, t: State)
    requires QueueInv(s) && Next(s, ReadAfter(d)) == Some(t)
    ensures t.present == s.present && t.pointer == s.pointer && t.removed == s.removed && t.skipped == s.skipped
    ensures s.pointer == Names(d) || !s.pointer.Names? ==> MustBeNext(t, Restore(d))
    ensures s.pointer.Names? && s.pointer != Names(d) ==> MustBeNext(t, Delete(d))
  {
  }

  /**
   * What putting back and deleting do: the one reports the release skipped, or stops on an invalid
   * pointer; the other reports it removed.
   */
  lemma {:induction false} DecisionsAreCarriedOut(s: State, d: Digest)
    requires QueueInv(s)
    ensures var back := Next(s, Restore(d));
            back.Some? ==>
              && back.value.present == s.present + {d} && back.value.removed == s.removed
              && (HasStopped(back.value)
                 || (back.value.skipped == s.skipped + [d] && back.value.phase == Choosing(s.phase.queue[1..])))
    ensures var gone := Next(s, Delete(d));
            gone.Some? ==>
              && d !in gone.value.present && gone.value.present == s.present && gone.value.skipped == s.skipped
              && gone.value.removed == s.removed + [d] && gone.value.phase == Choosing(s.phase.queue[1..])
  {
  }

  /**
   * How putting back ends, whatever others do meanwhile: when the second read found the pointer invalid
   * prune stops there, when it found none or found the release current, prune skips it and goes on.
   */
  lemma {:induction false} RestorationEnds(s: State, d: Digest, read: State, others: seq<Event>, t: State, after: State)
    requires QueueInv(s) && Next(s, ReadAfter(d)) == Some(read)
    requires Run(read, others) == Some(t) && forall i :: 0 <= i < |others| ==> !IsPruneStep(others[i])
    requires Next(t, Restore(d)) == Some(after)
    ensures d in after.present
    ensures s.pointer.Invalid? ==> HasStopped(after) && after.skipped == s.skipped
    ensures !s.pointer.Invalid? ==> after.phase == Choosing(s.phase.queue[1..]) && after.skipped == s.skipped + [d]
  {
    OthersLeavePhase(read, others, t);
  }

  lemma {:induction false} ScanningStep(s: State, entries: seq<Entry>, keep: Option<nat>, cutoff: Option<int>, t: State)
    requires Next(s, Scan(entries, keep, cutoff)) == Some(t)
    ensures s.phase.Scanning? && OnDisk(entries, s.present)
    ensures t.phase == match Candidates(ScanReleases(entries), s.phase.current, keep, cutoff)
                       case None => Stopped
                       case Some(queue) => Choosing(queue)
  {
  }

  lemma {:induction false} ReadingStep(s: State, t: State)
    requires Next(s, ReadPointer) == Some(t)
    ensures t.phase == if s.pointer.Names? then Scanning(s.pointer.digest) else Stopped
  {
  }

  /**
   * How prune begins: it takes the release in `current.json` for the current one, stops without one or
   * when a scan does not list it as valid, and otherwise queues exactly the listed releases that may go.
   */
  lemma {:induction false} PruneBegins(s: State, a: State, entries: seq<Entry>, keep: Option<nat>, cutoff: Option<int>,
      b: State)
    requires Next(s, ReadPointer) == Some(a) && Next(a, Scan(entries, keep, cutoff)) == Some(b)
    ensures s.pointer.Names?
    ensures var listed, current := ScanReleases(entries), s.pointer.digest;
            && (b.phase.Choosing? <==> exists e :: e in listed && e.valid && e.digest == current)
            && (b.phase.Choosing? || b.phase.Stopped?)
            && (b.phase.Choosing? ==>
                 forall d :: d in b.phase.queue <==>
                   exists i: nat :: MayGo(listed, i, current, keep, cutoff) && listed[i].digest == d)
  {
    ReadingStep(s, a);
    ScanningStep(a, entries, keep, cutoff, b);
    ListingIsDetermined(entries, entries);
    CandidatesAreExact(ScanReleases(entries), s.pointer.digest, keep, cutoff);
  }

  lemma {:induction false} PruneNeedsPointer(s: State, t: State)
    requires Next(s, ReadPointer) == Some(t) && !s.pointer.Names?
    ensures HasStopped(t)
  {
  }

  // ----- prune alone

  /** Prune has dealt with the first `k` candidates by removing each, and may have renamed the next. */
  ghost predicate QuietAt(s: State, t: State, candidates: seq<Digest>, k: nat) {
    && k <= |candidates| && t.pointer == s.pointer && t.skipped == s.skipped
    && t.removed == s.removed + candidates[..k]
    && HasQueue(t.phase) && !t.phase.Restoring? && t.phase.queue == candidates[k..]
    && (!t.phase.Choosing? ==> k < |candidates|)
    && t.present ==
       s.present - Listed(candidates[..k]) - (if t.phase.Moved? || t.phase.Removing? then {candidates[k]} else {})
  }

  ghost function Listed(digests: seq<Digest>): set<Digest> {
    set d | d in digests
  }

  ghost predicate QuietSomewhere(s: State, t: State, candidates: seq<Digest>) {
    exists k: nat :: QuietAt(s, t, candidates, k)
  }

  lemma {:induction false} QuietStep(s: State, t: State, candidates: seq<Digest>, k: nat, e: Event, u: State)
    requires QuietAt(s, t, candidates, k) && Distinct(candidates) && Listed(candidates) <= s.present
    requires s.pointer.Names? && s.pointer.digest !in candidates
    requires IsPruneStep(e) && Next(t, e) == Some(u)
    ensures QuietSomewhere(s, u, candidates)
  {
    var d := candidates[k];
    assert t.phase.queue[0] == d && d in candidates && d in Listed(candidates);
    assert candidates[k..][1..] == candidates[k + 1..];
    if e.Delete? {
      assert candidates[..k + 1] == candidates[..k] + [d];
      assert Listed(candidates[..k + 1]) == Listed(candidates[..k]) + {d};
      assert QuietAt(s, u, candidates, k + 1);
    } else {
      assert d !in Listed(candidates[..k]);
      assert QuietAt(s, u, candidates, k);
    }
  }

  lemma {:induction false} PruneAloneGoesOn(s: State, candidates: seq<Digest>, events: seq<Event>, t: State)
    requires s.phase == Choosing(candidates) && Distinct(candidates) && Listed(candidates) <= s.present
    requires s.pointer.Names? && s.pointer.digest !in candidates
    requires Run(s, events) == Some(t) && forall i :: 0 <= i < |events| ==> IsPruneStep(events[i])
    ensures QuietSomewhere(s, t, candidates)
  {
    if events == [] {
      assert QuietAt(s, t, candidates, 0);
    } else {
      var before := Run(s, events[..|events| - 1]).value;
      PruneAloneGoesOn(s, candidates, events[..|events| - 1], before);
      var k: nat :| QuietAt(s, before, candidates, k);
      QuietStep(s, before, candidates, k, events[|events| - 1], t);
    }
  }

  lemma {:induction false} QuietEnd(s: State, t: State, candidates: seq<Digest>, k: nat)
    requires QuietAt(s, t, candidates, k) && HasStopped(t)
    ensures k == |candidates| && t.phase == Choosing([])
  {
    if k < |candidates| {
      var d := candidates[k];
      assert InWork(t.phase, d);
      assert IsPruneStep(ReadBefore(d)) && IsPruneStep(Rename(d)) && IsPruneStep(ReadAfter(d))
        && IsPruneStep(Delete(d));
    }
  }

  /** With nobody else about, prune removes exactly its candidates, in order, skips none, and leaves all else alone. */
  lemma {:induction false} PruneAloneRemovesCandidates(s: State, candidates: seq<Digest>, events: seq<Event>, t: State)
    requires s.phase == Choosing(candidates) && Distinct(candidates) && Listed(candidates) <= s.present
    requires s.pointer.Names? && s.pointer.digest !in candidates
    requires Run(s, events) == Some(t) && forall i :: 0 <= i < |events| ==> IsPruneStep(events[i])
    requires HasStopped(t)
    ensures t.removed == s.removed + candidates && t.skipped == s.skipped && t.pointer == s.pointer
    ensures t.present == s.present - Listed(candidates)
  {
    PruneAloneGoesOn(s, candidates, events, t);
    var k: nat :| QuietAt(s, t, candidates, k);
    QuietEnd(s, t, candidates, k);
    assert candidates[..k] == candidates;
  }

  /** What prune reports as skipped is on disk and no longer in its queue. */
  ghost predicate SkippedInv(s: State) {
    && (s.phase.Idle? || s.phase.Scanning? ==> s.skipped == [])
    && (forall d :: d in s.skipped ==> d in s.present)
    && (HasQueue(s.phase) ==> forall d :: d in s.skipped ==> d !in s.phase.queue)
  }

  lemma {:induction false} SkippedStep(s: State, e: Event, t: State)
    requires QueueInv(s) && SkippedInv(s) && Next(s, e) == Some(t)
    requires !e.ReadBefore? && !e.Restore?
    ensures SkippedInv(t)
  {
  }

  lemma {:induction false} SkippedByReading(s: State, e: Event, t: State)
    requires QueueInv(s) && SkippedInv(s) && Next(s, e) == Some(t) && e.ReadBefore?
    ensures SkippedInv(t)
  {
    ReadBeforeIs(s, e.digest, t);
    assert HasQueue(t.phase) ==> forall d :: d in t.phase.queue ==> d in s.phase.queue;
  }

  lemma {:induction false} SkippedByRestoring(s: State, e: Event, t: State)
    requires QueueInv(s) && SkippedInv(s) && Next(s, e) == Some(t) && e.Restore?
    ensures SkippedInv(t)
  {
    assert HasQueue(t.phase) ==> forall d :: d in t.phase.queue ==> d in s.phase.queue;
  }

  /** A release prune skipped is on disk in every later state. */
  lemma {:induction false} SkippedStay(s: State, events: seq<Event>, t: State)
    requires Initial(s) && Run(s, events) == Some(t)
    ensures SkippedInv(t)
  {
    if events != [] {
      var earlier, e := events[..|events| - 1], events[|events| - 1];
      var before := Run(s, earlier).value;
      SkippedStay(s, earlier, before);
      RunKeepsInv(s, earlier, before);
      if e.ReadBefore? {
        SkippedByReading(before, e, t);
      } else if e.Restore? {
        SkippedByRestoring(before, e, t);
      } else {
        SkippedStep(before, e, t);
      }
    }
  }

  // ----- the exception is real

  const KEPT := Entry(1, 10, true)
  const OLD := Entry(2, 5, true)

  /** A switch that verified the old release before prune looked at it, and writes after prune's second read. */
  function LateRun(): seq<Event> {
    [ReadPointer, Scan([KEPT, OLD], Some(1), None), Verify(0, 2), ReadBefore(2), Rename(2), ReadAfter(2), Write(0),
      Delete(2)]
  }

  lemma {:induction false} ScanOfLateRun()
    ensures Candidates(ScanReleases([KEPT, OLD]), 1, Some(1), None) == Some([2])
  {
    var found := [KEPT, OLD];
    assert found[1..] == [OLD] && [OLD][1..] == [];
    assert Sorting.Sort(ListedBefore, [OLD]) == [OLD];
    var listed := ScanReleases(found);
    assert listed == found;
    assert ValidOnly([OLD]) == [OLD];
    var valid := ValidOnly(found);
    assert valid == found;
    assert SelectFrom(valid, 2, 1, Some(1), None) == [];
    assert SelectFrom(valid, 1, 1, Some(1), None) == [2];
    assert SelectFrom(valid, 0, 1, Some(1), None) == [2];
    assert valid[0].digest == 1;
  }

  lemma {:induction false} RunStep(s: State, events: seq<Event>, k: nat, t: State)
    requires k < |events| && Run(s, events[..k]) == Some(t)
    ensures Run(s, events[..k + 1]) == Next(t, events[k])
  {
    assert events[..k + 1][..k] == events[..k];
  }

  lemma {:induction false} LateRunBegins(s: State) returns (t: State)
    requires Initial(s) && s.pointer == Names(1) && s.present == {1, 2}
    ensures Run(s, LateRun()[..3]) == Some(t)
    ensures t.phase == Choosing([2]) && t.pointer == Names(1) && t.present == {1, 2} && t.removed == []
    ensures 0 in t.pending && t.pending[0].target == 2
  {
    var a := Next(s, ReadPointer).value;
    ScanOfLateRun();
    var b := Next(a, Scan([KEPT, OLD], Some(1), None)).value;
    t := Next(b, Verify(0, 2)).value;
    RunStep(s, LateRun(), 0, s);
    RunStep(s, LateRun(), 1, a);
    RunStep(s, LateRun(), 2, b);
  }

  lemma {:induction false} OldIsMoved(c: State) returns (d: State, e: State)
    requires c.phase == Choosing([2]) && c.pointer == Names(1) && c.present == {1, 2}
    ensures Next(c, ReadBefore(2)) == Some(d) && Next(d, Rename(2)) == Some(e)
    ensures e.phase == Moved([2]) && e.pointer == Names(1) && e.present == {1} && e.removed == c.removed
    ensures e.pending == c.pending
  {
    d := Next(c, ReadBefore(2)).value;
    e := Next(d, Rename(2)).value;
  }

  lemma {:induction false} OldIsRemoved(e: State) returns (f: State, g: State, t: State)
    requires e.phase == Moved([2]) && e.pointer == Names(1) && e.present == {1} && e.removed == []
    requires 0 in e.pending && e.pending[0].target == 2
    ensures Next(e, ReadAfter(2)) == Some(f) && Next(f, Write(0)) == Some(g) && Next(g, Delete(2)) == Some(t)
    ensures t.pointer == Names(2) && 2 !in t.present && t.removed == [2]
  {
    f := Next(e, ReadAfter(2)).value;
    g := Next(f, Write(0)).value;
    t := Next(g, Delete(2)).value;
  }

  lemma {:induction false} LateRunIs(s: State, c: State, d: State, e: State, f: State, g: State, t: State,
      events: seq<Event>)
    requires |events| == 8 && Run(s, events[..3]) == Some(c)
    requires Next(c, events[3]) == Some(d) && Next(d, events[4]) == Some(e) && Next(e, events[5]) == Some(f)
    requires Next(f, events[6]) == Some(g) && Next(g, events[7]) == Some(t)
    ensures Run(s, events) == Some(t)
  {
    RunStep(s, events, 3, c);
    RunStep(s, events, 4, d);
    RunStep(s, events, 5, e);
    RunStep(s, events, 6, f);
    RunStep(s, events, 7, g);
    assert events[..8] == events;
  }

  /** With a late switch prune does delete the current release. */
  lemma {:induction false} LateSwitchDeletesCurrent(s: State) returns (t: State)
    requires Initial(s) && s.pointer == Names(1) && s.present == {1, 2}
    ensures Run(s, LateRun()) == Some(t) && t.pointer == Names(2) && 2 !in t.present && t.removed == [2]
  {
    var c := LateRunBegins(s);
    var d, e := OldIsMoved(c);
    var f, g;
    f, g, t := OldIsRemoved(e);
    LateRunIs(s, c, d, e, f, g, t, LateRun());
  }
}
