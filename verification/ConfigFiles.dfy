/** The files behind the settings override and the crash-safe replacement of one by
  * the next. Any step may fail, may fail after it took effect, or may be the last
  * thing the process does; so may any step of the rollback.
  */
module ConfigFiles {
  import opened Wrappers
  import opened ConfigMerge

  const READ_CAP := 256 * 1024

  datatype Name = Current | Previous | Temporary(stamp: int)

  // value is what JSON.parse makes of the text, when that is an object.
  datatype File = File(value: Option<Settings>, bytes: nat)

  type Files = map<Name, File>

  // How far a step got: a write may leave a torn file, a move may clear its target
  // and go no further.
  datatype Effect = Untouched | Half | Full

  datatype Fate = Done | Failed(effect: Effect) | Crashed(effect: Effect) {
    function Reached(): Effect { if Done? then Full else effect }
  }

  function Moved(files: Files, from: Name, to: Name, effect: Effect): Files
    requires from != to
  {
    match effect
    case Untouched => files
    case Half => files - {to}
    case Full => if from in files then files[to := files[from]] - {from} else files
  }

  function Deleted(files: Files, name: Name, effect: Effect): Files {
    if effect.Full? then files - {name} else files
  }

  function Written(files: Files, name: Name, file: File, torn: File, effect: Effect): Files {
    match effect
    case Untouched => files
    case Half => files[name := torn]
    case Full => files[name := file]
  }

  // The fate of each step of a read and of a save, in program order.
  datatype ReadFates = ReadFates(lookCurrent: Fate, lookPrevious: Fate, restore: Fate, lookSize: Fate, text: Fate)

  datatype SaveFates = SaveFates(write: Fate, clear: Fate, look: Fate, aside: Fate, place: Fate, discard: Fate,
                                 rollback: Fate, sweep: Fate)

  datatype Answer = Override(value: Settings) | Unread | ReaderDead

  // Absent when the process died; otherwise whether settings may be looked for.
  function Restored(files: Files, fates: ReadFates): (Files, Option<bool>) {
    if !fates.lookCurrent.Done? then (files, Verdict(fates.lookCurrent))
    else if Current in files then (files, Some(true))
    else if !fates.lookPrevious.Done? then (files, Verdict(fates.lookPrevious))
    else if Previous !in files then (files, Some(true))
    else (Moved(files, Previous, Current, fates.restore.Reached()), Verdict(fates.restore))
  }

  function Verdict(fate: Fate): Option<bool> {
    match fate
    case Done => Some(true)
    case Failed(_) => Some(false)
    case Crashed(_) => None
  }

  function Parsed(file: File): Answer {
    if file.bytes > READ_CAP || file.value.None? then Unread else Override(file.value.value)
  }

  function Read(files: Files, fates: ReadFates): (Files, Answer) {
    var (restored, found) := Restored(files, fates);
    if found.None? then (restored, ReaderDead)
    else if !found.value then (restored, Unread)
    else if fates.lookSize.Crashed? then (restored, ReaderDead)
    else if fates.lookSize.Failed? then (restored, Unread)
    else if Current !in restored then (restored, Override(Obj(map[])))
    else if restored[Current].bytes > READ_CAP then (restored, Unread)
    else if fates.text.Crashed? then (restored, ReaderDead)
    else if fates.text.Failed? then (restored, Unread)
    else (restored, Parsed(restored[Current]))
  }

  // The settings a reader of these files would be given.
  function Effective(files: Files): Option<File> {
    if Current in files then Some(files[Current])
    else if Previous in files then Some(files[Previous])
    else None
  }

  function SettingsIn(file: Option<File>): Answer {
    if file.None? then Override(Obj(map[])) else Parsed(file.value)
  }

  // A save: the patch, the clock reading that names its temporary file, the length of
  // the printed result, and what a torn write would leave.
  datatype Job = Job(patch: Settings, stamp: int, bytes: nat, torn: File, reading: ReadFates, fates: SaveFates)

  datatype Outcome = Saved | Refused | Thrown | Dead

  function Recovered(files: Files, aside: bool, fate: Fate, job: Job): (Files, Outcome) {
    if fate.Crashed? then (files, Dead)
    else
      var back := if aside then Moved(files, Previous, Current, job.fates.rollback.Reached()) else files;
      if aside && job.fates.rollback.Crashed? then (back, Dead)
      else
        (Deleted(back, Temporary(job.stamp), job.fates.sweep.Reached()),
         if job.fates.sweep.Crashed? then Dead else Thrown)
  }

  function Replaced(files: Files, next: File, job: Job): (Files, Outcome) {
    var f := job.fates;
    var temporary := Temporary(job.stamp);
    var written := Written(files, temporary, next, job.torn, f.write.Reached());
    if !f.write.Done? then Recovered(written, false, f.write, job)
    else
      var cleared := Deleted(written, Previous, f.clear.Reached());
      if !f.clear.Done? then Recovered(cleared, false, f.clear, job)
      else if !f.look.Done? then Recovered(cleared, false, f.look, job)
      else
        var present := Current in cleared;
        var parted := if present then Moved(cleared, Current, Previous, f.aside.Reached()) else cleared;
        if present && !f.aside.Done? then Recovered(parted, false, f.aside, job)
        else Placed(parted, present, job)
  }

  function Placed(files: Files, aside: bool, job: Job): (Files, Outcome) {
    var f := job.fates;
    var placed := Moved(files, Temporary(job.stamp), Current, f.place.Reached());
    if !f.place.Done? then Recovered(placed, aside, f.place, job)
    else
      var cleaned := Deleted(placed, Previous, f.discard.Reached());
      if !f.discard.Done? then Recovered(cleaned, aside, f.discard, job)
      else (cleaned, Saved)
  }

  function Merged(value: Settings, job: Job): File {
    File(Some(DeepMerge(value, job.patch)), job.bytes)
  }

  function Save(files: Files, job: Job): (Files, Outcome) {
    var (found, answer) := Read(files, job.reading);
    match answer
    case ReaderDead => (found, Dead)
    case Unread => (found, Refused)
    case Override(value) => Replaced(found, Merged(value, job), job)
  }

  /** A read never changes which settings are in force, and answers with them or not
    * at all; the empty override stands only for no file under either name.
    */
  lemma ReadKeeps(files: Files, fates: ReadFates)
    ensures Effective(Read(files, fates).0) == Effective(files)
    ensures Read(files, fates).1.Override? ==>
              Read(files, fates).1 == SettingsIn(Effective(files)) &&
              (Current in Read(files, fates).0 || Previous !in Read(files, fates).0)
    ensures SameBut(files, Read(files, fates).0, {Current, Previous})
  {
  }

  const QUIET_READ := ReadFates(Done, Done, Done, Done, Done)

  // Left undisturbed, a read does answer with the settings in force.
  lemma QuietRead(files: Files)
    ensures Read(files, QUIET_READ).1 == SettingsIn(Effective(files))
  {
  }

  // The one pair of faults that costs the settings: the last step reports an error
  // although the old copy is gone, and the rollback, finding nothing to move, has
  // already cleared the place it was to move to.
  predicate DoubleFault(job: Job) {
    job.fates.discard == Failed(Full) && job.fates.rollback.Reached() == Half
  }

  predicate ReachesDiscard(f: SaveFates) {
    f.write.Done? && f.clear.Done? && f.look.Done? && f.aside.Done? && f.place.Done?
  }

  // The second half of a replacement, from the moment the old file is out of the way.
  lemma PlaceExactly(files: Files, next: File, job: Job)
    requires Current !in files && Temporary(job.stamp) in files && files[Temporary(job.stamp)] == next
    ensures var after := Effective(Placed(files, Previous in files, job).0);
            if Previous in files && job.fates.place.Done? && DoubleFault(job) then after == None
            else after == Effective(files) || after == Some(next)
  {
  }

  /** Whatever step fails or is the last, the settings in force afterwards are the ones
    * from before or the merged ones, unless the double fault struck while there was a
    * file to replace; and then there are none.
    */
  lemma ReplaceExactly(files: Files, next: File, job: Job)
    requires Current in files || Previous !in files
    ensures var after := Effective(Replaced(files, next, job).0);
            if Current in files && ReachesDiscard(job.fates) && DoubleFault(job) then after == None
            else after == Effective(files) || after == Some(next)
  {
    hide Placed;
    var f := job.fates;
    if f.write.Done? && f.clear.Done? && f.look.Done? && (Current in files ==> f.aside.Done?) {
      var cleared := files[Temporary(job.stamp) := next] - {Previous};
      var parted := if Current in files then Moved(cleared, Current, Previous, Full) else cleared;
      PlaceExactly(parted, next, job);
    }
  }

  lemma ReplaceLeaves(files: Files, next: File, job: Job)
    ensures var (after, outcome) := Replaced(files, next, job);
            && outcome != Refused
            && (outcome.Saved? ==> after == (files - {Previous, Temporary(job.stamp)})[Current := next])
            && (outcome.Thrown? && job.fates.sweep.Done? ==> Temporary(job.stamp) !in after)
  {
  }

  ghost predicate SameBut(files: Files, after: Files, names: set<Name>) {
    forall n :: n !in names ==> (n in after <==> n in files) && (n in files ==> after[n] == files[n])
  }

  lemma RecoverFrame(files: Files, aside: bool, fate: Fate, job: Job)
    ensures SameBut(files, Recovered(files, aside, fate, job).0, {Current, Previous, Temporary(job.stamp)})
  {
  }

  lemma PlacedFrame(files: Files, aside: bool, job: Job)
    ensures SameBut(files, Placed(files, aside, job).0, {Current, Previous, Temporary(job.stamp)})
  {
    hide Recovered;
    var f := job.fates;
    var placed := Moved(files, Temporary(job.stamp), Current, f.place.Reached());
    RecoverFrame(placed, aside, f.place, job);
    RecoverFrame(Deleted(placed, Previous, f.discard.Reached()), aside, f.discard, job);
  }

  lemma ReplaceFrame(files: Files, next: File, job: Job)
    ensures SameBut(files, Replaced(files, next, job).0, {Current, Previous, Temporary(job.stamp)})
  {
    hide Recovered, Placed;
    var f := job.fates;
    var written := Written(files, Temporary(job.stamp), next, job.torn, f.write.Reached());
    var cleared := Deleted(written, Previous, f.clear.Reached());
    var parted := Moved(cleared, Current, Previous, f.aside.Reached());
    RecoverFrame(written, false, f.write, job);
    RecoverFrame(cleared, false, f.clear, job);
    RecoverFrame(cleared, false, f.look, job);
    RecoverFrame(parted, false, f.aside, job);
    PlacedFrame(parted, true, job);
    PlacedFrame(cleared, false, job);
  }

  predicate Loses(files: Files, job: Job) {
    Read(files, job.reading).1.Override? && Effective(files).Some? && ReachesDiscard(job.fates) && DoubleFault(job)
  }

  // What a save may leave in force: what was there, or that with the patch laid over it.
  function Laid(before: Option<File>, job: Job): Option<File> {
    match SettingsIn(before)
    case Override(value) => Some(Merged(value, job))
    case _ => before
  }

  /** A save is atomic whatever goes wrong in it, exactly short of the double fault. */
  lemma SaveAtomicExactly(files: Files, job: Job)
    ensures var after := Effective(Save(files, job).0);
            after == Effective(files) || after == Laid(Effective(files), job) <==> !Loses(files, job)
    ensures Loses(files, job) ==> Effective(Save(files, job).0) == None
    ensures Save(files, job).1.Refused? ==> Effective(Save(files, job).0) == Effective(files)
  {
    hide Read, Replaced;
    ReadKeeps(files, job.reading);
    var (found, answer) := Read(files, job.reading);
    if answer.Override? {
      ReplaceExactly(found, Merged(answer.value, job), job);
      ReplaceLeaves(found, Merged(answer.value, job), job);
    }
  }

  // A save that reports an error has put the merged settings in force all the same: with a file to replace only
  // when the very last deletion failed after taking effect, without one as soon as the merged file was in place.
  predicate TakesAnyway(overwrites: bool, f: SaveFates) {
    && f.write.Done? && f.clear.Done? && f.look.Done? && f.place.Reached().Full?
    && (overwrites ==> f.aside.Done? && f.place.Done? && f.discard.Reached().Full?)
  }

  lemma PlaceThrown(files: Files, next: File, job: Job)
    requires Current !in files && Temporary(job.stamp) in files && files[Temporary(job.stamp)] == next
    requires Placed(files, Previous in files, job).1.Thrown? && job.fates.rollback.Done?
    ensures Effective(Placed(files, Previous in files, job).0) ==
            if job.fates.place.Reached().Full?
               && (Previous in files ==> job.fates.place.Done? && job.fates.discard.Reached().Full?)
            then Some(next) else Effective(files)
  {
  }

  lemma ReplaceThrown(files: Files, next: File, job: Job)
    requires Current in files || Previous !in files
    requires Replaced(files, next, job).1.Thrown? && job.fates.rollback.Done?
    ensures Effective(Replaced(files, next, job).0) ==
            if TakesAnyway(Current in files, job.fates) then Some(next) else Effective(files)
  {
    hide Placed;
    var f := job.fates;
    if f.write.Done? && f.clear.Done? && f.look.Done? && (Current in files ==> f.aside.Done?) {
      var cleared := files[Temporary(job.stamp) := next] - {Previous};
      var parted := if Current in files then Moved(cleared, Current, Previous, Full) else cleared;
      PlaceThrown(parted, next, job);
    }
  }

  /** What a reported error means, when the rollback works: the old settings are in force, but for the cases in
    * which the merged ones are.
    */
  lemma ThrownExactly(files: Files, job: Job)
    requires Save(files, job).1.Thrown? && job.fates.rollback.Done?
    ensures Effective(Save(files, job).0) ==
            if TakesAnyway(Effective(files).Some?, job.fates) then Laid(Effective(files), job) else Effective(files)
  {
    hide Read, Replaced;
    ReadKeeps(files, job.reading);
    var (found, answer) := Read(files, job.reading);
    if answer.Override? {
      ReplaceThrown(found, Merged(answer.value, job), job);
    }
  }

  /** The double fault, from undisturbed settings: the save reports an error and nothing is left. */
  lemma DoubleFaultLoses(file: File, patch: Settings, stamp: int, torn: File)
    requires Parsed(file).Override?
    ensures var fates := QUIET_SAVE.(discard := Failed(Full), rollback := Failed(Half));
            Save(map[Current := file], Job(patch, stamp, 0, torn, QUIET_READ, fates)) == (map[], Thrown)
  {
    hide DeepMerge;
    var fates := QUIET_SAVE.(discard := Failed(Full), rollback := Failed(Half));
    var job := Job(patch, stamp, 0, torn, QUIET_READ, fates);
    var next := Merged(file.value.value, job);
    var parted := map[Temporary(stamp) := next, Previous := file];
    assert Replaced(map[Current := file], next, job) == Placed(parted, true, job);
    assert Placed(parted, true, job) == (map[], Thrown);
  }

  /** A save that reports success has put the merged settings in place and left neither
    * the old copy nor its temporary file; one that reports an error has at least taken
    * its temporary file away when that step worked; and no other file is ever touched.
    */
  lemma SaveLeaves(files: Files, job: Job)
    ensures Save(files, job).1.Saved? ==>
              SettingsIn(Effective(files)).Override? &&
              Save(files, job).0 ==
                (files - {Previous, Temporary(job.stamp)})[Current := Laid(Effective(files), job).value]
    ensures Save(files, job).1.Thrown? && job.fates.sweep.Done? ==> Temporary(job.stamp) !in Save(files, job).0
    ensures SameBut(files, Save(files, job).0, {Current, Previous, Temporary(job.stamp)})
  {
    hide Read, Replaced;
    ReadKeeps(files, job.reading);
    var (found, answer) := Read(files, job.reading);
    if answer.Override? {
      ReplaceLeaves(found, Merged(answer.value, job), job);
      ReplaceFrame(found, Merged(answer.value, job), job);
      assert found - {Current, Previous, Temporary(job.stamp)} == files - {Current, Previous, Temporary(job.stamp)};
    }
  }

  const QUIET_SAVE := SaveFates(Done, Done, Done, Done, Done, Done, Done, Done)

  // Undisturbed, a save succeeds on exactly the settings a read could be given.
  lemma QuietSave(files: Files, job: Job)
    requires job.reading == QUIET_READ && job.fates == QUIET_SAVE
    ensures Save(files, job).1 == if SettingsIn(Effective(files)).Override? then Saved else Refused
  {
    hide Read;
    QuietRead(files);
  }

  datatype Access = Reading(fates: ReadFates) | Saving(job: Job)

  function Accessed(files: Files, access: Access): (Files, Outcome) {
    match access
    case Reading(fates) => (Read(files, fates).0, Refused)
    case Saving(job) => Save(files, job)
  }

  function Run(files: Files, accesses: seq<Access>): Files
    decreases |accesses|
  {
    if accesses == [] then files else Run(Accessed(files, accesses[0]).0, accesses[1..])
  }

  // No save of the run meets the double fault where it can strike.
  predicate NoLoss(files: Files, accesses: seq<Access>)
    decreases |accesses|
  {
    accesses == [] ||
    ((accesses[0].Saving? ==> !Loses(files, accesses[0].job)) && NoLoss(Accessed(files, accesses[0]).0, accesses[1..]))
  }

  // At no step of the run do settings that exist turn into none.
  predicate NeverVanish(files: Files, accesses: seq<Access>)
    decreases |accesses|
  {
    accesses == [] ||
    (var after := Accessed(files, accesses[0]).0;
     (Effective(files).Some? ==> Effective(after).Some?) && NeverVanish(after, accesses[1..]))
  }

  // The settings got by laying just the chosen patches over one another, in order.
  function LaidOver(before: Option<File>, accesses: seq<Access>, chosen: seq<bool>): Option<File>
    requires |chosen| == |accesses|
    decreases |accesses|
  {
    if accesses == [] then before
    else
      var next := if chosen[0] && accesses[0].Saving? then Laid(before, accesses[0].job) else before;
      LaidOver(next, accesses[1..], chosen[1..])
  }

  // Every save that reported success is chosen, and no refused one is.
  predicate Faithful(files: Files, accesses: seq<Access>, chosen: seq<bool>)
    requires |chosen| == |accesses|
    decreases |accesses|
  {
    accesses == [] ||
    (var (after, outcome) := Accessed(files, accesses[0]);
     (outcome.Saved? ==> chosen[0]) && (outcome.Refused? ==> !chosen[0]) &&
     Faithful(after, accesses[1..], chosen[1..]))
  }

  ghost predicate Explained(files: Files, accesses: seq<Access>, chosen: seq<bool>) {
    |chosen| == |accesses| && Faithful(files, accesses, chosen) &&
    Effective(Run(files, accesses)) == LaidOver(Effective(files), accesses, chosen)
  }

  /** Over any sequence of interrupted saves and reads, settings that exist never turn into none if and only if
    * no save meets the double fault where it can strike. Then what is in force at the end are the first settings
    * with some of the patches laid over them in order: every patch whose save reported success, and none whose
    * save was refused.
    */
  lemma {:induction false} InterruptedSaves(files: Files, accesses: seq<Access>)
    ensures NeverVanish(files, accesses) <==> NoLoss(files, accesses)
    ensures NoLoss(files, accesses) ==> exists chosen :: Explained(files, accesses, chosen)
    ensures NoLoss(files, accesses) && Effective(files).Some? ==> Effective(Run(files, accesses)).Some?
    decreases |accesses|
  {
    hide Save, Read, Effective, Loses;
    if accesses == [] {
      assert Explained(files, accesses, []);
    } else {
      var after := Accessed(files, accesses[0]).0;
      InterruptedSaves(after, accesses[1..]);
      OneLoss(files, accesses[0]);
      if NoLoss(files, accesses) {
        var rest :| Explained(after, accesses[1..], rest);
        var first := OneAccess(files, accesses[0]);
        assert ([first] + rest)[1..] == rest;
        assert Explained(files, accesses, [first] + rest);
      }
    }
  }

  lemma OneLoss(files: Files, access: Access)
    ensures (Effective(files).Some? ==> Effective(Accessed(files, access).0).Some?) <==>
            !(access.Saving? && Loses(files, access.job))
  {
    hide Save, Read;
    match access
    case Reading(fates) => ReadKeeps(files, fates);
    case Saving(job) => SaveAtomicExactly(files, job);
  }

  lemma OneAccess(files: Files, access: Access) returns (chosen: bool)
    requires access.Saving? ==> !Loses(files, access.job)
    ensures Effective(Accessed(files, access).0) ==
              if chosen && access.Saving? then Laid(Effective(files), access.job) else Effective(files)
    ensures Accessed(files, access).1.Saved? ==> chosen
    ensures Accessed(files, access).1.Refused? ==> !chosen
  {
    hide Save, Read, Loses;
    match access
    case Reading(fates) =>
      ReadKeeps(files, fates);
      chosen := false;
    case Saving(job) =>
      SaveAtomicExactly(files, job);
      SaveLeaves(files, job);
      chosen := Save(files, job).1 != Refused && Effective(Save(files, job).0) == Laid(Effective(files), job);
  }

  // --- Settings too long to be read ---

  /** A save never looks at the length of what it writes: when it reports success, the settings it put in place can
    * be read if and only if they are within the ceiling of a read.
    */
  lemma SavedReadable(files: Files, job: Job)
    requires Save(files, job).1.Saved?
    ensures SettingsIn(Effective(Save(files, job).0)).Override? <==> job.bytes <= READ_CAP
  {
    hide Save;
    SaveLeaves(files, job);
  }

  /** Settings that cannot be read stay in force through every later sequence of reads and saves, whatever faults
    * strike, and none of those saves reports success.
    */
  lemma {:induction false} UnreadableStays(files: Files, accesses: seq<Access>)
    requires !SettingsIn(Effective(files)).Override?
    ensures Effective(Run(files, accesses)) == Effective(files)
    ensures forall i :: 0 <= i < |accesses| ==> !Accessed(Run(files, accesses[..i]), accesses[i]).1.Saved?
    decreases |accesses|
  {
    hide Accessed, Effective, SettingsIn;
    if accesses != [] {
      var after := Accessed(files, accesses[0]).0;
      AccessUnreadable(files, accesses[0]);
      UnreadableStays(after, accesses[1..]);
      forall i | 0 <= i < |accesses|
        ensures !Accessed(Run(files, accesses[..i]), accesses[i]).1.Saved?
      {
        if i > 0 {
          assert accesses[..i][1..] == accesses[1..][..i - 1];
          assert accesses[1..][i - 1] == accesses[i];
        }
      }
    }
  }

  lemma AccessUnreadable(files: Files, access: Access)
    requires !SettingsIn(Effective(files)).Override?
    ensures Effective(Accessed(files, access).0) == Effective(files) && !Accessed(files, access).1.Saved?
  {
    hide Read, Effective, SettingsIn;
    ReadKeeps(files, if access.Reading? then access.fates else access.job.reading);
  }

  /** The first save of settings longer than the ceiling, with nothing going wrong: it reports success, and the next
    * read, with nothing going wrong either, cannot read them.
    */
  lemma TooLongToRead(patch: Settings, stamp: int, bytes: nat, torn: File)
    requires bytes > READ_CAP
    ensures var (files, outcome) := Save(map[], Job(patch, stamp, bytes, torn, QUIET_READ, QUIET_SAVE));
            outcome == Saved && Read(files, QUIET_READ).1 == Unread
  {
    hide Save, Read;
    var job := Job(patch, stamp, bytes, torn, QUIET_READ, QUIET_SAVE);
    QuietSave(map[], job);
    SavedReadable(map[], job);
    QuietRead(Save(map[], job).0);
    SaveLeaves(map[], job);
  }

  // --- Trying again ---

  // What the file in force holds, whether or not it is short enough to be read.
  function Contents(file: Option<File>): Option<Settings> {
    if file.None? then Some(Obj(map[])) else file.value.value
  }

  predicate Attempts(patch: Settings, jobs: seq<Job>) {
    forall j :: j in jobs ==> j.patch == patch
  }

  // No attempt meets the double fault where it can strike.
  predicate NoAttemptLoses(files: Files, jobs: seq<Job>)
    decreases |jobs|
  {
    jobs == [] || (!Loses(files, jobs[0]) && NoAttemptLoses(Save(files, jobs[0]).0, jobs[1..]))
  }

  function RunAttempts(files: Files, jobs: seq<Job>): (Files, bool)
    decreases |jobs|
  {
    if jobs == [] then (files, false)
    else
      var (after, outcome) := Save(files, jobs[0]);
      var (end, saved) := RunAttempts(after, jobs[1..]);
      (end, outcome.Saved? || saved)
  }

  /** A save that failed or was cut short can simply be tried again: however many attempts went wrong and whatever
    * each of them left, short of a loss, the file in force holds the old settings or the old ones with the patch,
    * and the latter once any attempt reported success. While no attempt is longer than the ceiling of a read, they
    * can be read throughout.
    */
  lemma {:induction false} RetrySettles(files: Files, value: Settings, patch: Settings, jobs: seq<Job>)
    requires Attempts(patch, jobs) && NoAttemptLoses(files, jobs)
    requires Contents(Effective(files)) == Some(value)
    ensures var (end, saved) := RunAttempts(files, jobs);
            (Contents(Effective(end)) == Some(value) && !saved) ||
            Contents(Effective(end)) == Some(DeepMerge(value, patch))
    ensures SettingsIn(Effective(files)).Override? && (forall j :: j in jobs ==> j.bytes <= READ_CAP) ==>
              SettingsIn(Effective(RunAttempts(files, jobs).0)).Override?
    decreases |jobs|
  {
    hide Save, Read, Effective, DeepMerge, Loses, SettingsIn, Contents;
    if jobs != [] {
      var (after, outcome) := Save(files, jobs[0]);
      OneAttempt(files, value, jobs[0]);
      if Effective(after) == Effective(files) && !outcome.Saved? {
        RetrySettles(after, value, patch, jobs[1..]);
      } else {
        MergeTwice(value, patch);
        RetrySettles(after, DeepMerge(value, patch), patch, jobs[1..]);
      }
    }
  }

  lemma OneAttempt(files: Files, value: Settings, job: Job)
    requires !Loses(files, job) && Contents(Effective(files)) == Some(value)
    ensures var (after, outcome) := Save(files, job);
            (Effective(after) == Effective(files) && !outcome.Saved?) ||
            (Contents(Effective(after)) == Some(DeepMerge(value, job.patch)) &&
             (SettingsIn(Effective(after)).Override? <==> job.bytes <= READ_CAP))
  {
    hide Save, Read, DeepMerge, Loses;
    SaveAtomicExactly(files, job);
    SaveLeaves(files, job);
  }

  /** The directory the settings live in, changed one file operation at a time. */
  class Directory {
    var files: Files

    constructor (files: Files)
      ensures this.files == files
    {
      this.files := files;
    }

    method Write(name: Name, file: File, torn: File, fate: Fate)
      modifies this
      ensures files == Written(old(files), name, file, torn, fate.Reached())
    {
      match fate.Reached()
      case Untouched =>
      case Half => files := files[name := torn];
      case Full => files := files[name := file];
    }

    method Move(from: Name, to: Name, fate: Fate)
      requires from != to
      modifies this
      ensures files == Moved(old(files), from, to, fate.Reached())
    {
      match fate.Reached()
      case Untouched =>
      case Half => files := files - {to};
      case Full =>
        if from in files {
          files := files[to := files[from]] - {from};
        }
    }

    method Delete(name: Name, fate: Fate)
      modifies this
      ensures files == Deleted(old(files), name, fate.Reached())
    {
      if fate.Reached() == Full {
        files := files - {name};
      }
    }

    // restoreStrandedOverride: absent when the process dies on the way.
    method RestoreStranded(fates: ReadFates) returns (found: Option<bool>)
      modifies this
      ensures (files, found) == Restored(old(files), fates)
    {
      if fates.lookCurrent != Done {
        return Verdict(fates.lookCurrent);
      }
      if Current in files {
        return Some(true);
      }
      if fates.lookPrevious != Done {
        return Verdict(fates.lookPrevious);
      }
      if Previous !in files {
        return Some(true);
      }
      Move(Previous, Current, fates.restore);
      return Verdict(fates.restore);
    }

    method ReadOverride(fates: ReadFates) returns (answer: Answer)
      modifies this
      ensures (files, answer) == Read(old(files), fates)
    {
      var found := RestoreStranded(fates);
      if found.None? {
        return ReaderDead;
      }
      if !found.value {
        return Unread;
      }
      match fates.lookSize {
        case Crashed(_) => return ReaderDead;
        case Failed(_) => return Unread;
        case Done =>
      }
      if Current !in files {
        return Override(Obj(map[]));
      }
      if files[Current].bytes > READ_CAP {
        return Unread;
      }
      match fates.text {
        case Crashed(_) => return ReaderDead;
        case Failed(_) => return Unread;
        case Done =>
      }
      return Parsed(files[Current]);
    }

    method SaveOverride(job: Job) returns (outcome: Outcome)
      modifies this
      ensures (files, outcome) == Save(old(files), job)
    {
      var answer := ReadOverride(job.reading);
      if answer == ReaderDead {
        return Dead;
      }
      if answer == Unread {
        return Refused;
      }
      outcome := Replace(Merged(answer.value, job), job);
    }

    // The try block; every failed step leaves through the catch block.
    method Replace(next: File, job: Job) returns (outcome: Outcome)
      modifies this
      ensures (files, outcome) == Replaced(old(files), next, job)
    {
      var f := job.fates;
      var temporary, aside := Temporary(job.stamp), false;
      Write(temporary, next, job.torn, f.write);
      if f.write != Done {
        outcome := Recover(aside, f.write, job);
        return;
      }
      Delete(Previous, f.clear);
      if f.clear != Done {
        outcome := Recover(aside, f.clear, job);
        return;
      }
      if f.look != Done {
        outcome := Recover(aside, f.look, job);
        return;
      }
      if Current in files {
        Move(Current, Previous, f.aside);
        if f.aside != Done {
          outcome := Recover(aside, f.aside, job);
          return;
        }
        aside := true;
      }
      Move(temporary, Current, f.place);
      if f.place != Done {
        outcome := Recover(aside, f.place, job);
        return;
      }
      Delete(Previous, f.discard);
      if f.discard != Done {
        outcome := Recover(aside, f.discard, job);
        return;
      }
      return Saved;
    }

    // The catch block: the old file goes back first, then the temporary one goes away.
    method Recover(aside: bool, fate: Fate, job: Job) returns (outcome: Outcome)
      modifies this
      ensures (files, outcome) == Recovered(old(files), aside, fate, job)
    {
      if fate.Crashed? {
        return Dead;
      }
      if aside {
        Move(Previous, Current, job.fates.rollback);
        if job.fates.rollback.Crashed? {
          return Dead;
        }
      }
      Delete(Temporary(job.stamp), job.fates.sweep);
      return if job.fates.sweep.Crashed? then Dead else Thrown;
    }
  }
}
