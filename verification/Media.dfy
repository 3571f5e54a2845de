/** Media blobs of one account: files on disk, their rows, and the references that keep them.
  * Every request runs under the account's write lock, so each is one step here; what may cut
  * a step short is a failing file or database operation, or the death of the process.
  */
module Media {
  import opened Wrappers

  type MediaId = string
  type Reference = string
  type Ciphertext = string

  datatype Row = Row(bytes: nat, createdAt: Instant, lastSeenAt: Instant, deleteRequestedAt: Option<Instant>,
                     deletedAt: Option<Instant>)

  datatype Ref = Ref(media: MediaId, reference: Reference)

  datatype RefRow = RefRow(createdAt: Instant, lastSeenAt: Instant, releasedAt: Option<Instant>)

  datatype Vault = Vault(files: map<MediaId, Ciphertext>, media: map<MediaId, Row>, refs: map<Ref, RefRow>)

  datatype Limits = Limits(maxFiles: nat, maxBytes: nat)

  ghost function Size(files: map<MediaId, Ciphertext>): nat {
    if files == map[] then 0
    else
      var id :| id in files;
      |files[id]| + Size(files - {id})
  }

  predicate Active(v: Vault, r: Ref) {
    r in v.refs && v.refs[r].releasedAt == None
  }

  predicate Referenced(v: Vault, id: MediaId) {
    exists r :: r in v.refs && r.media == id && v.refs[r].releasedAt == None
  }

  // --- Uploading ---

  // What became of the catch block that puts the previous file back.
  datatype Undo = Restored | Untouched | Torn(length: nat)

  datatype PutFate =
    | Stored
    | WriteFailed(undo: Undo)
    | RegisterFailed(undo: Undo)
    | DiedBeforeRename
    | DiedAfterRename

  datatype PutVerdict = Accepted | FileQuota | AccountQuota | PutFailed

  function PutBack(files: map<MediaId, Ciphertext>, id: MediaId, previous: Option<Ciphertext>, undo: Undo)
    : map<MediaId, Ciphertext>
  {
    match undo
    case Restored => if previous.Some? then files[id := previous.value] else files - {id}
    case Untouched => files
    case Torn(n) => if previous.Some? && n <= |previous.value| then files[id := previous.value[..n]] else files
  }

  function Registered(media: map<MediaId, Row>, id: MediaId, bytes: nat, now: Instant): map<MediaId, Row> {
    media[id := Row(bytes, if id in media then media[id].createdAt else now, now, None, None)]
  }

  ghost function QuotaVerdict(v: Vault, id: MediaId, bytes: nat, limits: Limits): PutVerdict {
    if id !in v.files && |v.files| >= limits.maxFiles then FileQuota
    else if Size(v.files) - (if id in v.files then |v.files[id]| else 0) + bytes > limits.maxBytes then AccountQuota
    else Accepted
  }

  function Upload(v: Vault, id: MediaId, content: Ciphertext, now: Instant, fate: PutFate): Vault {
    var previous := if id in v.files then Some(v.files[id]) else None;
    match fate
    case Stored => v.(files := v.files[id := content], media := Registered(v.media, id, |content|, now))
    case WriteFailed(undo) => v.(files := PutBack(v.files, id, previous, undo))
    case RegisterFailed(undo) => v.(files := PutBack(v.files[id := content], id, previous, undo))
    case DiedBeforeRename => v
    case DiedAfterRename => v.(files := v.files[id := content])
  }

  // --- References and deletion requests ---

  datatype Verdict = Ok | NotFound | Deleted

  function Judge(v: Vault, id: MediaId): Verdict {
    if id !in v.media then NotFound else if v.media[id].deletedAt.Some? then Deleted else Ok
  }

  function Refer(v: Vault, r: Ref, present: bool, now: Instant): Vault {
    if Judge(v, r.media) != Ok then v
    else if present then
      var createdAt := if r in v.refs then v.refs[r].createdAt else now;
      v.(refs := v.refs[r := RefRow(createdAt, now, None)])
    else if r in v.refs then
      v.(refs := v.refs[r := v.refs[r].(releasedAt := Some(v.refs[r].releasedAt.GetOr(now)))])
    else v
  }

  function RequestDelete(v: Vault, id: MediaId, now: Instant): Vault {
    if Judge(v, id) != Ok then v
    else v.(media := v.media[id := v.media[id].(deleteRequestedAt := Some(v.media[id].deleteRequestedAt.GetOr(now)))])
  }

  // --- Collecting ---

  datatype CollectFate = Finished | UnlinkFailed | CutAfterUnlink

  // The check made again under the lock. The candidate may be any id: nothing is
  // assumed of the list drawn up before the lock was taken.
  predicate Collectable(v: Vault, id: MediaId, now: Instant) {
    && id in v.media && v.media[id].deletedAt == None
    && v.media[id].deleteRequestedAt.Some? && v.media[id].deleteRequestedAt.value <= now
    && !Referenced(v, id)
  }

  function RefsWithout(refs: map<Ref, RefRow>, id: MediaId): map<Ref, RefRow> {
    map r | r in refs && r.media != id :: refs[r]
  }

  function Marked(v: Vault, id: MediaId, now: Instant): Vault {
    if id in v.media && v.media[id].deleteRequestedAt.Some? && v.media[id].deletedAt == None && !Referenced(v, id) then
      v.(media := v.media[id := v.media[id].(deletedAt := Some(now))], refs := RefsWithout(v.refs, id))
    else v
  }

  function Collect(v: Vault, id: MediaId, now: Instant, fate: CollectFate): Vault {
    if !Collectable(v, id, now) || (fate == UnlinkFailed && id in v.files) then v
    else
      var unlinked := v.(files := v.files - {id});
      if fate == CutAfterUnlink then unlinked else Marked(unlinked, id, now)
  }

  // --- Runs ---

  datatype Action =
    | Put(id: MediaId, content: Ciphertext, now: Instant, fate: PutFate)
    | Refering(ref: Ref, present: bool, now: Instant)
    | Requesting(id: MediaId, now: Instant)
    | Collecting(id: MediaId, now: Instant, outcome: CollectFate)

  ghost function Step(v: Vault, action: Action, limits: Limits): Vault {
    match action
    case Put(id, content, now, fate) =>
      if QuotaVerdict(v, id, |content|, limits) == Accepted then Upload(v, id, content, now, fate) else v
    case Refering(r, present, now) => Refer(v, r, present, now)
    case Requesting(id, now) => RequestDelete(v, id, now)
    case Collecting(id, now, fate) => Collect(v, id, now, fate)
  }

  const EMPTY := Vault(map[], map[], map[])

  ghost function Run(actions: seq<Action>, limits: Limits): Vault {
    if actions == [] then EMPTY
    else Step(Run(actions[..|actions| - 1], limits), actions[|actions| - 1], limits)
  }

  predicate Live(v: Vault, id: MediaId) {
    id in v.media && v.media[id].deletedAt == None
  }

  /** Every blob registered and not marked deleted has its file. */
  ghost predicate Safe(v: Vault) {
    forall id :: Live(v, id) ==> id in v.files
  }

  /** What holds whatever was cut short: references hang on live rows only, and a live row can lack its
    * file only after its deletion was requested.
    */
  ghost predicate Sound(v: Vault) {
    && (forall r :: Active(v, r) ==> Live(v, r.media))
    && (forall r :: r in v.refs ==> r.media in v.media)
    && (forall id :: Live(v, id) && id !in v.files ==> v.media[id].deleteRequestedAt.Some?)
  }

  lemma UploadSound(v: Vault, id: MediaId, content: Ciphertext, now: Instant, fate: PutFate)
    requires Sound(v)
    ensures Sound(Upload(v, id, content, now, fate))
    ensures Safe(v) ==> Safe(Upload(v, id, content, now, fate))
  {
    var after := Upload(v, id, content, now, fate);
    assert forall other :: other != id ==> (other in after.files <==> other in v.files);
    assert forall r :: Active(after, r) ==> Active(v, r);
  }

  lemma ReferSound(v: Vault, r: Ref, present: bool, now: Instant)
    requires Sound(v)
    ensures Sound(Refer(v, r, present, now))
  {
    var after := Refer(v, r, present, now);
    assert forall other :: other != r ==> (Active(after, other) <==> Active(v, other));
  }

  lemma RequestSound(v: Vault, id: MediaId, now: Instant)
    requires Sound(v)
    ensures Sound(RequestDelete(v, id, now))
    ensures Safe(v) ==> Safe(RequestDelete(v, id, now))
  {
    var after := RequestDelete(v, id, now);
    assert forall other :: Live(after, other) <==> Live(v, other);
    assert forall r :: Active(after, r) <==> Active(v, r);
  }

  lemma CollectSound(v: Vault, id: MediaId, now: Instant, fate: CollectFate)
    requires Sound(v)
    ensures Sound(Collect(v, id, now, fate))
    ensures Safe(v) ==> (Safe(Collect(v, id, now, fate)) <==> !(fate == CutAfterUnlink && Collectable(v, id, now)))
  {
    var after := Collect(v, id, now, fate);
    assert forall r :: Active(after, r) ==> Active(v, r);
    assert forall other :: Live(after, other) ==> Live(v, other);
    assert forall other :: other != id ==> (Live(after, other) <==> Live(v, other));
    if Collectable(v, id, now) {
      if fate == CutAfterUnlink {
        assert Live(after, id) && id !in after.files;
      } else if after != v {
        assert !Live(after, id);
        assert forall r :: Active(after, r) ==> r.media != id;
      }
    }
  }

  lemma StepSound(v: Vault, action: Action, limits: Limits)
    requires Sound(v)
    ensures Sound(Step(v, action, limits))
  {
    hide Sound, QuotaVerdict, Upload, Refer, RequestDelete, Collect;
    match action
    case Put(id, content, now, fate) => UploadSound(v, id, content, now, fate);
    case Refering(r, present, now) => ReferSound(v, r, present, now);
    case Requesting(id, now) => RequestSound(v, id, now);
    case Collecting(id, now, fate) => CollectSound(v, id, now, fate);
  }

  // A collection cut between the removal of the file and the marking of its row.
  predicate CutShort(v: Vault, action: Action) {
    action.Collecting? && action.outcome == CutAfterUnlink && Collectable(v, action.id, action.now)
  }

  /** A step keeps every live blob's file exactly when it is not a collection cut short. */
  lemma StepSafeExactly(v: Vault, action: Action, limits: Limits)
    requires Safe(v) && Sound(v)
    ensures Safe(Step(v, action, limits)) <==> !CutShort(v, action)
  {
    hide Sound, QuotaVerdict, Upload, RequestDelete, Collect;
    match action
    case Put(id, content, now, fate) => UploadSound(v, id, content, now, fate);
    case Refering(r, present, now) =>
    case Requesting(id, now) => RequestSound(v, id, now);
    case Collecting(id, now, fate) => CollectSound(v, id, now, fate);
  }

  ghost predicate NeverCutShort(actions: seq<Action>, limits: Limits) {
    forall i :: 0 <= i < |actions| ==> !CutShort(Run(actions[..i], limits), actions[i])
  }

  /** In every run a live blob has its file, or its deletion was requested; when no collection was cut short
    * it always has its file, and so has every blob with an unreleased reference.
    */
  lemma {:induction false} BlobsKept(actions: seq<Action>, limits: Limits)
    ensures Sound(Run(actions, limits))
    ensures NeverCutShort(actions, limits) ==>
              Safe(Run(actions, limits)) &&
              forall r :: Active(Run(actions, limits), r) ==> r.media in Run(actions, limits).files
    decreases |actions|
  {
    hide Step, CutShort;
    if actions != [] {
      var n := |actions| - 1;
      var before := Run(actions[..n], limits);
      BlobsKept(actions[..n], limits);
      StepSound(before, actions[n], limits);
      if NeverCutShort(actions, limits) {
        forall i | 0 <= i < n
          ensures !CutShort(Run(actions[..n][..i], limits), actions[..n][i])
        {
          assert actions[..n][..i] == actions[..i];
        }
        StepSafeExactly(before, actions[n], limits);
      }
    }
  }

  ghost predicate SafeThroughout(actions: seq<Action>, limits: Limits) {
    forall i :: 0 <= i <= |actions| ==> Safe(Run(actions[..i], limits))
  }

  /** Over whole runs: every live blob has its file at every moment if and only if no collection was cut short. */
  lemma {:induction false} SafeThroughoutExactly(actions: seq<Action>, limits: Limits)
    ensures SafeThroughout(actions, limits) <==> NeverCutShort(actions, limits)
  {
    hide Run, Safe, CutShort;
    if SafeThroughout(actions, limits) {
      forall i | 0 <= i < |actions|
        ensures !CutShort(Run(actions[..i], limits), actions[i])
      {
        NextState(actions, limits, i);
        BlobsKept(actions[..i], limits);
        StepSafeExactly(Run(actions[..i], limits), actions[i], limits);
      }
    }
    if NeverCutShort(actions, limits) {
      forall i | 0 <= i <= |actions|
        ensures Safe(Run(actions[..i], limits))
      {
        forall j | 0 <= j < i
          ensures !CutShort(Run(actions[..i][..j], limits), actions[..i][j])
        {
          assert actions[..i][..j] == actions[..j];
        }
        BlobsKept(actions[..i], limits);
      }
    }
  }

  lemma NextState(actions: seq<Action>, limits: Limits, i: nat)
    requires i < |actions|
    ensures Run(actions[..i + 1], limits) == Step(Run(actions[..i], limits), actions[i], limits)
  {
    hide Step;
    assert actions[..i + 1][..i] == actions[..i];
  }

  /** A cut collection can cost a referenced blob its file: the row it leaves behind still takes references. */
  lemma CutThenReferenced(limits: Limits)
    requires limits.maxFiles >= 1 && limits.maxBytes >= 1
    ensures var r := Ref("a", "chat");
            var v := Run([Put("a", "x", 1, Stored), Requesting("a", 2), Collecting("a", 3, CutAfterUnlink),
                          Refering(r, true, 4)], limits);
            Active(v, r) && Live(v, "a") && "a" !in v.files && forall now: Instant :: !Collectable(v, "a", now)
  {
    var put, request, cut := Put("a", "x", 1, Stored), Requesting("a", 2), Collecting("a", 3, CutAfterUnlink);
    var refer := Refering(Ref("a", "chat"), true, 4);
    var v1 := Step(EMPTY, put, limits);
    assert QuotaVerdict(EMPTY, "a", 1, limits) == Accepted;
    var v2 := Step(v1, request, limits);
    assert Collectable(v2, "a", 3);
    var v4 := Step(Step(v2, cut, limits), refer, limits);
    assert Active(v4, Ref("a", "chat"));
    ActiveLive(v4, Ref("a", "chat"));
    assert Run([put, request, cut, refer], limits) == v4 by {
      RunOfFour(put, request, cut, refer, limits);
    }
  }

  // Neither an upload of the blob nor a release of the reference.
  predicate Leaves(action: Action, r: Ref) {
    match action
    case Put(id, _, _, _) => id != r.media
    case Refering(other, present, _) => other != r || present
    case _ => true
  }

  lemma StepStaysLost(v: Vault, action: Action, limits: Limits, r: Ref)
    requires Sound(v) && Active(v, r) && r.media !in v.files && Leaves(action, r)
    ensures var after := Step(v, action, limits);
            Active(after, r) && Live(after, r.media) && r.media !in after.files
  {
    hide QuotaVerdict, Upload;
    StepSound(v, action, limits);
    if action.Put? {
      UploadElsewhere(v, action.id, action.content, action.now, action.fate, r);
    } else if action.Collecting? && action.id == r.media {
      assert Referenced(v, r.media);
    }
  }

  lemma UploadElsewhere(v: Vault, id: MediaId, content: Ciphertext, now: Instant, fate: PutFate, r: Ref)
    requires id != r.media
    ensures var after := Upload(v, id, content, now, fate);
            && (r.media in after.files <==> r.media in v.files) && after.refs == v.refs
            && (Live(v, r.media) <==> Live(after, r.media))
  {
  }

  /** A referenced blob without its file stays so, its row live and never collected, through every later run
    * until that reference is released or the blob is uploaded again.
    */
  lemma {:induction false} LostUntilReleased(before: seq<Action>, after: seq<Action>, limits: Limits, r: Ref)
    requires Active(Run(before, limits), r) && r.media !in Run(before, limits).files
    requires forall a :: a in after ==> Leaves(a, r)
    ensures var v := Run(before + after, limits);
            && Active(v, r) && Live(v, r.media) && r.media !in v.files
            && forall now: Instant :: !Collectable(v, r.media, now)
    decreases |after|
  {
    hide Step, Sound, Leaves;
    if after == [] {
      assert before + after == before;
      BlobsKept(before, limits);
      ActiveLive(Run(before, limits), r);
    } else {
      var n := |after| - 1;
      LostUntilReleased(before, after[..n], limits, r);
      var all := before + after;
      assert all[..|all| - 1] == before + after[..n];
      BlobsKept(before + after[..n], limits);
      StepStaysLost(Run(before + after[..n], limits), after[n], limits, r);
      ActiveLive(Run(all, limits), r);
    }
  }

  lemma ActiveLive(v: Vault, r: Ref)
    ensures Active(v, r) && Sound(v) ==> Live(v, r.media)
    ensures Active(v, r) ==> forall now: Instant :: !Collectable(v, r.media, now)
  {
    if Active(v, r) {
      assert Referenced(v, r.media);
    }
  }

  lemma RunOfFour(a: Action, b: Action, c: Action, d: Action, limits: Limits)
    ensures Run([a, b, c, d], limits) == Step(Step(Step(Step(EMPTY, a, limits), b, limits), c, limits), d, limits)
  {
    hide Step;
    assert [a, b, c, d][..3] == [a, b, c] && [a, b, c][..2] == [a, b] && [a, b][..1] == [a] && [a][..0] == [];
    assert Run([a], limits) == Step(EMPTY, a, limits);
    assert Run([a, b], limits) == Step(Run([a], limits), b, limits);
    assert Run([a, b, c], limits) == Step(Run([a, b], limits), c, limits);
  }

  // --- What a collection may remove ---

  predicate Uploads(action: Action, id: MediaId) {
    action.Put? && action.id == id && action.fate == Stored
  }

  // An upload of the blob that passed the quotas and was stored.
  ghost predicate StoredAt(actions: seq<Action>, limits: Limits, i: nat, id: MediaId)
    requires i < |actions|
  {
    Uploads(actions[i], id) && QuotaVerdict(Run(actions[..i], limits), id, |actions[i].content|, limits) == Accepted
  }

  ghost predicate NoneStored(actions: seq<Action>, limits: Limits, m: nat, id: MediaId) {
    forall i :: m < i < |actions| ==> !StoredAt(actions, limits, i, id)
  }

  ghost predicate RequestedAt(actions: seq<Action>, limits: Limits, m: nat, id: MediaId, at: Instant) {
    m < |actions| && actions[m] == Requesting(id, at) && NoneStored(actions, limits, m, id)
  }

  // Where a pending deletion comes from: an earlier state, or a request just made.
  lemma PendingBefore(v: Vault, action: Action, limits: Limits, id: MediaId)
    requires var after := Step(v, action, limits);
             id in after.media && after.media[id].deleteRequestedAt.Some?
    ensures var at := Step(v, action, limits).media[id].deleteRequestedAt.value;
            || action == Requesting(id, at)
            || (id in v.media && v.media[id].deleteRequestedAt == Some(at) &&
                !(Uploads(action, id) && QuotaVerdict(v, id, |action.content|, limits) == Accepted))
  {
    hide QuotaVerdict;
  }

  lemma NoneStoredLonger(actions: seq<Action>, limits: Limits, m: nat, id: MediaId)
    requires m < |actions| - 1 && NoneStored(actions[..|actions| - 1], limits, m, id)
    requires !StoredAt(actions, limits, |actions| - 1, id)
    ensures NoneStored(actions, limits, m, id)
  {
    hide Run, QuotaVerdict;
    var n := |actions| - 1;
    forall i | m < i < n
      ensures !StoredAt(actions, limits, i, id)
    {
      assert !StoredAt(actions[..n], limits, i, id);
      assert actions[..n][..i] == actions[..i];
    }
  }

  /** A pending deletion goes back to a request made after the last stored upload that passed the quotas. */
  lemma {:induction false} PendingWasRequested(actions: seq<Action>, limits: Limits, id: MediaId) returns (m: nat)
    requires id in Run(actions, limits).media && Run(actions, limits).media[id].deleteRequestedAt.Some?
    ensures RequestedAt(actions, limits, m, id, Run(actions, limits).media[id].deleteRequestedAt.value)
    decreases |actions|
  {
    hide Step, NoneStored, QuotaVerdict;
    var n := |actions| - 1;
    var before := Run(actions[..n], limits);
    var at := Run(actions, limits).media[id].deleteRequestedAt.value;
    PendingBefore(before, actions[n], limits, id);
    if actions[n] == Requesting(id, at) {
      m := n;
      NoneAfterLast(actions, limits, id);
    } else {
      m := PendingWasRequested(actions[..n], limits, id);
      NoneStoredLonger(actions, limits, m, id);
    }
  }

  lemma NoneAfterLast(actions: seq<Action>, limits: Limits, id: MediaId)
    requires actions != []
    ensures NoneStored(actions, limits, |actions| - 1, id)
  {
  }

  /** A collection removes a file only when the blob's deletion was requested since its last stored upload
    * and no reference to it is unreleased at that moment; it never touches another blob.
    */
  lemma CollectsOnlyRequested(actions: seq<Action>, limits: Limits, id: MediaId, now: Instant, fate: CollectFate)
    requires var v := Run(actions, limits);
             id in v.files && id !in Collect(v, id, now, fate).files
    ensures !Referenced(Run(actions, limits), id)
    ensures exists m: nat, at: Instant :: at <= now && RequestedAt(actions, limits, m, id, at)
    ensures var v := Run(actions, limits);
            var after := Collect(v, id, now, fate);
            && after.files == v.files - {id}
            && after.media.Keys == v.media.Keys
            && (forall other :: other != id && other in v.media ==> after.media[other] == v.media[other])
            && (forall r :: r in v.refs && r.media != id ==> r in after.refs && after.refs[r] == v.refs[r])
  {
    var m := PendingWasRequested(actions, limits, id);
  }

  // --- Quotas and sizes ---

  lemma {:induction false} SizeTakes(files: map<MediaId, Ciphertext>, id: MediaId)
    requires id in files
    ensures Size(files) == |files[id]| + Size(files - {id})
    decreases |files|
  {
    var first :| first in files && Size(files) == |files[first]| + Size(files - {first});
    if first != id {
      assert (files - {first}).Keys == files.Keys - {first} && (files - {id}).Keys == files.Keys - {id};
      SizeTakes(files - {first}, id);
      SizeTakes(files - {id}, first);
      assert files - {first} - {id} == files - {id} - {first};
    }
  }

  lemma SizeOfUpdate(files: map<MediaId, Ciphertext>, id: MediaId, content: Ciphertext)
    ensures Size(files[id := content]) == |content| + Size(files - {id})
    ensures Size(files) == (if id in files then |files[id]| else 0) + Size(files - {id})
  {
    SizeTakes(files[id := content], id);
    assert files[id := content] - {id} == files - {id};
    if id in files {
      SizeTakes(files, id);
    } else {
      assert files - {id} == files;
    }
  }

  lemma CountOfUpdate(files: map<MediaId, Ciphertext>, id: MediaId, content: Ciphertext)
    ensures |files[id := content]| == |files| + (if id in files then 0 else 1)
    ensures |files - {id}| == |files| - (if id in files then 1 else 0)
  {
    assert files[id := content].Keys == files.Keys + {id};
    assert (files - {id}).Keys == files.Keys - {id};
  }

  ghost predicate WithinLimits(files: map<MediaId, Ciphertext>, limits: Limits) {
    |files| <= limits.maxFiles && Size(files) <= limits.maxBytes
  }

  // An upload leaves no file of the blob, or one no longer than the old or the new content.
  lemma UploadShape(v: Vault, id: MediaId, content: Ciphertext, now: Instant, fate: PutFate)
    returns (left: Option<Ciphertext>)
    ensures Upload(v, id, content, now, fate).files ==
              if left.Some? then v.files[id := left.value] else v.files - {id}
    ensures left.Some? ==> |left.value| <= |content| || (id in v.files && |left.value| <= |v.files[id]|)
  {
    var after := Upload(v, id, content, now, fate).files;
    left := if id in after then Some(after[id]) else None;
    if left.Some? {
      assert after == v.files[id := left.value];
    }
  }

  lemma UploadWithin(v: Vault, id: MediaId, content: Ciphertext, now: Instant, fate: PutFate, limits: Limits)
    requires WithinLimits(v.files, limits) && QuotaVerdict(v, id, |content|, limits) == Accepted
    ensures WithinLimits(Upload(v, id, content, now, fate).files, limits)
  {
    hide Upload, Size;
    var left := UploadShape(v, id, content, now, fate);
    SizeOfUpdate(v.files, id, content);
    CountOfUpdate(v.files, id, content);
    if left.Some? {
      SizeOfUpdate(v.files, id, left.value);
      CountOfUpdate(v.files, id, left.value);
    }
  }

  /** However often steps are cut short, the files of an account keep within both limits. */
  lemma {:induction false} LimitsHold(actions: seq<Action>, limits: Limits)
    ensures WithinLimits(Run(actions, limits).files, limits)
    decreases |actions|
  {
    hide WithinLimits, QuotaVerdict;
    if actions == [] {
      EmptyWithin(limits);
    } else {
      var n := |actions| - 1;
      LimitsHold(actions[..n], limits);
      StepWithin(Run(actions[..n], limits), actions[n], limits);
    }
  }

  lemma EmptyWithin(limits: Limits)
    ensures WithinLimits(map[], limits)
  {
  }

  lemma StepWithin(v: Vault, action: Action, limits: Limits)
    requires WithinLimits(v.files, limits)
    ensures WithinLimits(Step(v, action, limits).files, limits)
  {
    hide QuotaVerdict, Upload, Collect, Size, WithinLimits;
    if action.Put? && QuotaVerdict(v, action.id, |action.content|, limits) == Accepted {
      UploadWithin(v, action.id, action.content, action.now, action.fate, limits);
    } else if action.Collecting? {
      CollectFiles(v, action.id, action.now, action.outcome);
      FewerWithin(v.files, action.id, limits);
    }
  }

  lemma CollectFiles(v: Vault, id: MediaId, now: Instant, fate: CollectFate)
    ensures Collect(v, id, now, fate).files in {v.files, v.files - {id}}
  {
  }

  lemma FewerWithin(files: map<MediaId, Ciphertext>, id: MediaId, limits: Limits)
    requires WithinLimits(files, limits)
    ensures WithinLimits(files - {id}, limits)
  {
    hide Size;
    SizeOfUpdate(files, id, "");
    CountOfUpdate(files, id, "");
  }

  // An upload that either completes or is fully undone.
  predicate Clean(action: Action) {
    action.Put? ==>
      match action.fate
      case Stored => true
      case WriteFailed(undo) => undo == Restored
      case RegisterFailed(undo) => undo == Restored
      case DiedBeforeRename => true
      case DiedAfterRename => false
  }

  ghost predicate SizesRecorded(v: Vault) {
    forall id :: id in v.media && id in v.files && v.media[id].deletedAt == None ==> v.media[id].bytes == |v.files[id]|
  }

  /** As long as no upload stopped halfway, every live row records the length of its file. */
  lemma {:induction false} SizesAgree(actions: seq<Action>, limits: Limits)
    requires forall a :: a in actions ==> Clean(a)
    ensures SizesRecorded(Run(actions, limits))
    decreases |actions|
  {
    if actions != [] {
      var n := |actions| - 1;
      SizesAgree(actions[..n], limits);
      assert Clean(actions[n]);
      StepSizes(Run(actions[..n], limits), actions[n], limits);
    }
  }

  lemma StepSizes(v: Vault, action: Action, limits: Limits)
    requires SizesRecorded(v) && Clean(action)
    ensures SizesRecorded(Step(v, action, limits))
  {
    hide QuotaVerdict;
  }

  // --- What each request does ---

  ghost predicate SameBut(v: Vault, after: Vault, id: MediaId) {
    && after.media.Keys == v.media.Keys + {id}
    && (forall other :: other in v.media && other != id ==> after.media[other] == v.media[other])
    && (forall other :: other != id ==> (other in after.files <==> other in v.files))
    && (forall other :: other in v.files && other != id ==> after.files[other] == v.files[other])
  }

  /** From files within the limits, an upload passes the quotas exactly when the files with it are within them too;
    * otherwise it is refused for the number of files when that alone is too much, and else for their size.
    */
  lemma QuotaExactly(v: Vault, id: MediaId, content: Ciphertext, limits: Limits)
    requires WithinLimits(v.files, limits)
    ensures var verdict, after := QuotaVerdict(v, id, |content|, limits), v.files[id := content];
            && (verdict == Accepted <==> WithinLimits(after, limits))
            && (verdict == FileQuota <==> |after| > limits.maxFiles)
            && (verdict == AccountQuota <==> |after| <= limits.maxFiles && Size(after) > limits.maxBytes)
  {
    hide Size;
    SizeOfUpdate(v.files, id, content);
    CountOfUpdate(v.files, id, content);
  }

  /** An upload that was stored is there, as sent, under a live row whose deletion is no longer requested; another
    * one leaves the rows as they were. Neither touches another blob or a reference.
    */
  lemma UploadTakesEffect(v: Vault, id: MediaId, content: Ciphertext, now: Instant, fate: PutFate)
    ensures var after := Upload(v, id, content, now, fate);
            && after.refs == v.refs
            && (fate != Stored ==> after.media == v.media)
            && (forall other :: other != id ==> (other in after.files <==> other in v.files))
            && (forall other :: other in v.files && other != id ==> after.files[other] == v.files[other])
            && (fate == Stored ==>
                  && SameBut(v, after, id)
                  && id in after.files && after.files[id] == content
                  && Live(after, id) && after.media[id].deleteRequestedAt == None
                  && after.media[id].bytes == |content| && after.media[id].lastSeenAt == now
                  && after.media[id].createdAt == if id in v.media then v.media[id].createdAt else now)
  {
  }

  /** Setting a reference makes it active, releasing it makes it inactive since its first release; only the
    * references of a live blob change, only the one named, and no blob or file does.
    */
  lemma ReferTakesEffect(v: Vault, r: Ref, present: bool, now: Instant)
    ensures var after := Refer(v, r, present, now);
            && after.files == v.files && after.media == v.media
            && (forall other :: other != r ==> (other in after.refs <==> other in v.refs))
            && (forall other :: other in v.refs && other != r ==> after.refs[other] == v.refs[other])
            && (!Live(v, r.media) ==> after == v)
            && (Live(v, r.media) ==> (Active(after, r) <==> present))
            && (Live(v, r.media) && present ==>
                  && after.refs[r].lastSeenAt == now
                  && after.refs[r].createdAt == if r in v.refs then v.refs[r].createdAt else now)
            && (Live(v, r.media) && !present ==> (r in after.refs <==> r in v.refs))
            && (Live(v, r.media) && !present && r in v.refs ==>
                  && after.refs[r].releasedAt == (if Active(v, r) then Some(now) else v.refs[r].releasedAt)
                  && after.refs[r].createdAt == v.refs[r].createdAt && after.refs[r].lastSeenAt == v.refs[r].lastSeenAt)
  {
    var after := Refer(v, r, present, now);
    assert r in v.refs && !Active(v, r) ==> v.refs[r].releasedAt.Some?;
  }

  /** A deletion request is recorded with the time of the first one, on a live blob only, and nothing else changes. */
  lemma RequestTakesEffect(v: Vault, id: MediaId, now: Instant)
    ensures var after := RequestDelete(v, id, now);
            && after.files == v.files && after.refs == v.refs
            && (!Live(v, id) ==> after == v)
            && (Live(v, id) ==>
                  && SameBut(v, after, id) && Live(after, id)
                  && after.media[id].deleteRequestedAt
                     == (if v.media[id].deleteRequestedAt.Some? then v.media[id].deleteRequestedAt else Some(now))
                  && after.media[id].bytes == v.media[id].bytes)
  {
  }

  /** A collection that runs to its end removes a blob whose deletion is due and that nobody references: its file,
    * its row's life, and all its references. Any other blob it leaves entirely alone.
    */
  lemma CollectTakesEffect(v: Vault, id: MediaId, now: Instant)
    ensures var after := Collect(v, id, now, Finished);
            var due := Live(v, id) && v.media[id].deleteRequestedAt.Some? && v.media[id].deleteRequestedAt.value <= now;
            if due && forall r :: Active(v, r) ==> r.media != id then
              && SameBut(v, after, id) && id !in after.files && after.media[id].deletedAt == Some(now)
              && (forall r :: r in after.refs <==> r in v.refs && r.media != id)
              && (forall r :: r in after.refs ==> after.refs[r] == v.refs[r])
            else after == v
  {
    assert Referenced(v, id) <==> exists r :: Active(v, r) && r.media == id;
    assert Referenced(v.(files := v.files - {id}), id) <==> Referenced(v, id);
  }

  /** The life of a blob comes to its end: once a reference to it is released and its deletion requested, a
    * collection that is not cut short removes it if and only if no other reference to it is active.
    */
  lemma ReleasedThenCollected(v: Vault, r: Ref, released: Instant, requested: Instant, now: Instant, limits: Limits)
    requires Live(v, r.media) && requested <= now
    requires v.media[r.media].deleteRequestedAt.Some? ==> v.media[r.media].deleteRequestedAt.value <= now
    ensures var v1 := Step(v, Refering(r, false, released), limits);
            var v2 := Step(v1, Requesting(r.media, requested), limits);
            var v3 := Step(v2, Collecting(r.media, now, Finished), limits);
            if exists other :: other != r && other.media == r.media && Active(v, other) then v3 == v2
            else r.media !in v3.files && !Live(v3, r.media) &&
                 forall other :: other in v3.refs ==> other.media != r.media
  {
    hide Refer, RequestDelete, Collect, Live;
    ReferTakesEffect(v, r, false, released);
    var v1 := Refer(v, r, false, released);
    LiveRow(v, v1, r.media);
    RequestTakesEffect(v1, r.media, requested);
    var v2 := RequestDelete(v1, r.media, requested);
    CollectTakesEffect(v2, r.media, now);
    assert forall other :: other != r ==> (Active(v2, other) <==> Active(v, other));
    LiveGone(Collect(v2, r.media, now, Finished), r.media);
  }

  lemma LiveRow(v: Vault, after: Vault, id: MediaId)
    requires after.media == v.media
    ensures Live(after, id) <==> Live(v, id)
    ensures Live(v, id) ==> id in v.media
  {
  }

  lemma LiveGone(v: Vault, id: MediaId)
    ensures id in v.media && v.media[id].deletedAt.Some? ==> !Live(v, id)
  {
  }

  /** One account's directory of blobs and the two tables beside it. */
  class MediaStore {
    var files: map<MediaId, Ciphertext>
    var media: map<MediaId, Row>
    var refs: map<Ref, RefRow>

    function Contents(): Vault
      reads this
    {
      Vault(files, media, refs)
    }

    constructor ()
      ensures Contents() == EMPTY
    {
      files, media, refs := map[], map[], map[];
    }

    // mediaAccountUsage: adds up the directory file by file.
    method Usage() returns (bytes: nat)
      ensures bytes == Size(files)
    {
      var rest := files;
      bytes := 0;
      while rest != map[]
        invariant bytes + Size(rest) == Size(files)
        decreases |rest|
      {
        var id :| id in rest;
        SizeTakes(rest, id);
        CountOfUpdate(rest, id, "");
        bytes, rest := bytes + |rest[id]|, rest - {id};
      }
    }

    method PutMedia(id: MediaId, content: Ciphertext, now: Instant, fate: PutFate, limits: Limits)
      returns (verdict: PutVerdict)
      modifies this
      ensures Contents() == Step(old(Contents()), Put(id, content, now, fate), limits)
      ensures var quota := QuotaVerdict(old(Contents()), id, |content|, limits);
              verdict == if quota != Accepted then quota else if fate == Stored then Accepted else PutFailed
    {
      var previous := if id in files then Some(files[id]) else None;
      var usage := Usage();
      if id !in files && |files| >= limits.maxFiles {
        return FileQuota;
      }
      if usage - (if previous.Some? then |previous.value| else 0) + |content| > limits.maxBytes {
        return AccountQuota;
      }
      match fate {
        case Stored =>
          files := files[id := content];
          RegisterMedia(id, |content|, now);
          return Accepted;
        case WriteFailed(undo) =>
          files := PutBack(files, id, previous, undo);
        case RegisterFailed(undo) =>
          files := files[id := content];
          files := PutBack(files, id, previous, undo);
        case DiedBeforeRename =>
        case DiedAfterRename =>
          files := files[id := content];
      }
      return PutFailed;
    }

    method RegisterMedia(id: MediaId, bytes: nat, now: Instant)
      modifies this`media
      ensures media == Registered(old(media), id, bytes, now)
    {
      if id in media {
        media := media[id := media[id].(bytes := bytes, lastSeenAt := now, deleteRequestedAt := None,
                                        deletedAt := None)];
      } else {
        media := media[id := Row(bytes, now, now, None, None)];
      }
    }

    method SetMediaReference(r: Ref, present: bool, now: Instant) returns (verdict: Verdict)
      modifies this`refs
      ensures verdict == Judge(old(Contents()), r.media)
      ensures Contents() == Refer(old(Contents()), r, present, now)
    {
      if r.media !in media {
        return NotFound;
      }
      if media[r.media].deletedAt != None {
        return Deleted;
      }
      if present {
        if r in refs {
          refs := refs[r := refs[r].(lastSeenAt := now, releasedAt := None)];
        } else {
          refs := refs[r := RefRow(now, now, None)];
        }
      } else if r in refs {
        refs := refs[r := refs[r].(releasedAt := Some(refs[r].releasedAt.GetOr(now)))];
      }
      return Ok;
    }

    method RequestMediaDelete(id: MediaId, now: Instant) returns (verdict: Verdict)
      modifies this`media
      ensures verdict == Judge(old(Contents()), id)
      ensures Contents() == RequestDelete(old(Contents()), id, now)
    {
      if id !in media {
        return NotFound;
      }
      if media[id].deletedAt != None {
        return Deleted;
      }
      media := media[id := media[id].(deleteRequestedAt := Some(media[id].deleteRequestedAt.GetOr(now)))];
      return Ok;
    }

    method MarkMediaDeleted(id: MediaId, now: Instant) returns (marked: bool)
      modifies this`media, this`refs
      ensures Contents() == Marked(old(Contents()), id, now)
      ensures marked <==> Live(old(Contents()), id) && !Live(Contents(), id)
    {
      marked := id in media && media[id].deleteRequestedAt.Some? && media[id].deletedAt == None &&
                !Referenced(Contents(), id);
      if marked {
        media := media[id := media[id].(deletedAt := Some(now))];
        refs := RefsWithout(refs, id);
      }
    }

    // One candidate of a collection, under the lock.
    method CollectOne(id: MediaId, now: Instant, fate: CollectFate) returns (deleted: bool)
      modifies this
      ensures Contents() == Collect(old(Contents()), id, now, fate)
      ensures deleted <==> Live(old(Contents()), id) && !Live(Contents(), id)
    {
      if id !in media || media[id].deletedAt != None || media[id].deleteRequestedAt == None ||
         media[id].deleteRequestedAt.value > now || Referenced(Contents(), id) {
        return false;
      }
      if id in files {
        if fate == UnlinkFailed {
          return false;
        }
        files := files - {id};
      }
      if fate == CutAfterUnlink {
        return false;
      }
      deleted := MarkMediaDeleted(id, now);
    }
  }
}
