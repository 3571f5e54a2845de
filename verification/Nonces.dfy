/**
 * One-time numbers: consumeNonce behind the clock window of verifySignedPayload.
 */
module Nonces {
  import opened Wrappers

  const MAX_CLOCK_SKEW_MS := 10 * 60 * 1000
  const NONCE_RETENTION_MS := 20 * 60 * 1000

  /** A row's key: the account (or other scope) and the number. */
  datatype Key = Key(scope: string, nonce: string)

  type Rows = map<Key, int>

  function Purge(rows: Rows, cutoff: int): Rows {
    map k | k in rows && rows[k] >= cutoff :: rows[k]
  }

  /** consumeNonce: purge, then insert unless present; true when inserted. */
  function Consume(rows: Rows, key: Key, now: Instant, retention: nat): (bool, Rows) {
    var kept := Purge(rows, now - retention);
    if key in kept then (false, kept) else (true, kept[key := now])
  }

  class NonceTable {
    var rows: Rows

    constructor ()
      ensures rows == map[]
    {
      rows := map[];
    }

    method ConsumeNonce(scope: string, nonce: string, now: Instant) returns (isNew: bool)
      modifies this
      ensures (isNew, rows) == Consume(old(rows), Key(scope, nonce), now, NONCE_RETENTION_MS)
    {
      rows := Purge(rows, now - NONCE_RETENTION_MS);
      isNew := Key(scope, nonce) !in rows;
      if isNew {
        rows := rows[Key(scope, nonce) := now];
      }
    }
  }

  /**
   * A signed payload shown to the server: its own timestamp, the reading its clock check was made
   * with, and the (possibly later) reading its number was consumed with.
   */
  datatype Showing = Showing(key: Key, timestamp: int, checkedAt: Instant, consumedAt: Instant)

  predicate InWindow(s: Showing, skew: nat) {
    s.timestamp - skew <= s.checkedAt <= s.timestamp + skew
  }

  /** One verdict per showing. Out of window, the number is not consumed at all. */
  function Verdicts(rows: Rows, showings: seq<Showing>, skew: nat, retention: nat): (r: seq<bool>)
    ensures |r| == |showings|
    decreases |showings|
  {
    if showings == [] then []
    else if !InWindow(showings[0], skew) then [false] + Verdicts(rows, showings[1..], skew, retention)
    else
      var (isNew, rows') := Consume(rows, showings[0].key, showings[0].consumedAt, retention);
      [isNew] + Verdicts(rows', showings[1..], skew, retention)
  }

  /** A clock that does not run backwards, and at most `lag` between the two readings of a request. */
  ghost predicate Timely(showings: seq<Showing>, lag: nat) {
    && (forall i :: 0 <= i < |showings| ==>
          showings[i].checkedAt <= showings[i].consumedAt <= showings[i].checkedAt + lag)
    && (forall i, j :: 0 <= i < j < |showings| ==> showings[i].consumedAt <= showings[j].consumedAt)
  }

  /** The same payload in the same scope: number and timestamp are both signed. */
  predicate SamePayload(s: Showing, t: Showing) {
    s.key == t.key && s.timestamp == t.timestamp
  }

  ghost predicate PassesOnce(showings: seq<Showing>, skew: nat, retention: nat) {
    forall i, j :: 0 <= i < j < |showings| && SamePayload(showings[i], showings[j])
      ==> !(Verdicts(map[], showings, skew, retention)[i] && Verdicts(map[], showings, skew, retention)[j])
  }

  /** A number recorded late enough refuses every later showing of its payload. */
  lemma {:induction false} RecordedRefuses(rows: Rows, showings: seq<Showing>, skew: nat, retention: nat, lag: nat,
                                            key: Key, timestamp: int, j: nat)
    requires Timely(showings, lag) && j < |showings| && retention >= 2 * skew + lag
    requires key in rows && rows[key] >= timestamp - skew
    requires showings[j].key == key && showings[j].timestamp == timestamp
    ensures !Verdicts(rows, showings, skew, retention)[j]
    decreases |showings|
  {
    var s := showings[0];
    assert InWindow(showings[j], skew) ==> s.consumedAt <= timestamp + skew + lag;
    if j > 0 && InWindow(showings[j], skew) {
      var rows' := if InWindow(s, skew) then Consume(rows, s.key, s.consumedAt, retention).1 else rows;
      assert key in rows' && rows'[key] == rows[key];
      RecordedRefuses(rows', showings[1..], skew, retention, lag, key, timestamp, j - 1);
    } else if j > 0 {
      OutOfWindow(rows, showings, skew, retention, j);
    }
  }

  lemma {:induction false} OutOfWindow(rows: Rows, showings: seq<Showing>, skew: nat, retention: nat, j: nat)
    requires j < |showings| && !InWindow(showings[j], skew)
    ensures !Verdicts(rows, showings, skew, retention)[j]
    decreases |showings|
  {
    if j > 0 {
      var s := showings[0];
      var rows' := if InWindow(s, skew) then Consume(rows, s.key, s.consumedAt, retention).1 else rows;
      OutOfWindow(rows', showings[1..], skew, retention, j - 1);
    }
  }

  lemma {:induction false} NotTwice(rows: Rows, showings: seq<Showing>, skew: nat, retention: nat, lag: nat,
                                    i: nat, j: nat)
    requires Timely(showings, lag) && retention >= 2 * skew + lag
    requires i < j < |showings| && SamePayload(showings[i], showings[j])
    ensures !(Verdicts(rows, showings, skew, retention)[i] && Verdicts(rows, showings, skew, retention)[j])
    decreases |showings|
  {
    var s := showings[0];
    var rows' := if InWindow(s, skew) then Consume(rows, s.key, s.consumedAt, retention).1 else rows;
    if i > 0 {
      NotTwice(rows', showings[1..], skew, retention, lag, i - 1, j - 1);
    } else if Verdicts(rows, showings, skew, retention)[0] {
      RecordedRefuses(rows', showings[1..], skew, retention, lag, s.key, s.timestamp, j - 1);
    }
  }

  /** The number was recorded within the retention before the showing consumes it. */
  predicate Recent(rows: Rows, s: Showing, retention: nat) {
    s.key in rows && rows[s.key] >= s.consumedAt - retention
  }

  /** An earlier showing of the same number passed within the retention. */
  ghost predicate UsedBefore(rows: Rows, showings: seq<Showing>, skew: nat, retention: nat, j: nat)
    requires j < |showings|
  {
    exists i :: 0 <= i < j && showings[i].key == showings[j].key && Verdicts(rows, showings, skew, retention)[i]
                && showings[i].consumedAt >= showings[j].consumedAt - retention
  }

  /** What one showing does to the chances of a later one. */
  lemma ConsumeMeans(rows: Rows, s: Showing, later: Showing, retention: nat)
    requires s.consumedAt <= later.consumedAt
    ensures var (isNew, rows') := Consume(rows, s.key, s.consumedAt, retention);
      && (isNew <==> !Recent(rows, s, retention))
      && (Recent(rows', later, retention) <==>
            Recent(rows, later, retention)
            || (isNew && s.key == later.key && s.consumedAt >= later.consumedAt - retention))
  {
  }

  lemma {:induction false} PassesFrom(rows: Rows, showings: seq<Showing>, skew: nat, retention: nat, lag: nat, j: nat)
    requires Timely(showings, lag) && j < |showings|
    ensures Verdicts(rows, showings, skew, retention)[j] <==>
      && InWindow(showings[j], skew)
      && !Recent(rows, showings[j], retention)
      && !UsedBefore(rows, showings, skew, retention, j)
    decreases |showings|
  {
    var s := showings[0];
    var passed := Verdicts(rows, showings, skew, retention)[0];
    var rows' := if InWindow(s, skew) then Consume(rows, s.key, s.consumedAt, retention).1 else rows;
    ConsumeMeans(rows, s, showings[j], retention);
    if j > 0 {
      PassesFrom(rows', showings[1..], skew, retention, lag, j - 1);
      assert Verdicts(rows, showings, skew, retention) == [passed] + Verdicts(rows', showings[1..], skew, retention);
      hide Verdicts, Consume, Recent, InWindow, Timely;
      UsedByFirst(rows, rows', showings, skew, retention, j);
    }
  }

  lemma UsedByFirst(rows: Rows, rows': Rows, showings: seq<Showing>, skew: nat, retention: nat, j: nat)
    requires 0 < j < |showings|
    requires Verdicts(rows, showings, skew, retention)[1..] == Verdicts(rows', showings[1..], skew, retention)
    ensures UsedBefore(rows, showings, skew, retention, j) <==>
      || UsedBefore(rows', showings[1..], skew, retention, j - 1)
      || (Verdicts(rows, showings, skew, retention)[0] && showings[0].key == showings[j].key
          && showings[0].consumedAt >= showings[j].consumedAt - retention)
  {
    hide Verdicts;
    var all, rest := Verdicts(rows, showings, skew, retention), Verdicts(rows', showings[1..], skew, retention);
    assert forall i :: 0 <= i < |rest| ==> rest[i] == all[i + 1] && showings[1..][i] == showings[i + 1];
    if i :| 0 <= i < j - 1 && showings[1..][i].key == showings[j].key && rest[i]
            && showings[1..][i].consumedAt >= showings[j].consumedAt - retention {
      assert all[i + 1] && showings[i + 1].key == showings[j].key;
    }
    if i :| 0 < i < j && showings[i].key == showings[j].key && all[i]
            && showings[i].consumedAt >= showings[j].consumedAt - retention {
      assert rest[i - 1] && showings[1..][i - 1].key == showings[j].key;
    }
  }

  /**
   * Which showings pass, over every sequence of them: exactly those inside their clock window whose
   * number no earlier showing used within the retention. So a number never shown before always
   * passes in its window, and a refused showing uses nothing up.
   */
  lemma PassesExactly(showings: seq<Showing>, skew: nat, retention: nat, lag: nat, j: nat)
    requires Timely(showings, lag) && j < |showings|
    ensures Verdicts(map[], showings, skew, retention)[j] <==>
      InWindow(showings[j], skew) && !UsedBefore(map[], showings, skew, retention, j)
  {
    PassesFrom(map[], showings, skew, retention, lag, j);
  }

  /** With one millisecond less, the same payload passes twice: early in its window, and at its end. */
  lemma PassesTwice(skew: nat, retention: nat, lag: nat)
    requires retention < 2 * skew + lag
    ensures exists showings :: Timely(showings, lag) && !PassesOnce(showings, skew, retention)
  {
    var key := Key("scope", "nonce");
    var first := Showing(key, skew + 1, 1, 1);
    var again := Showing(key, skew + 1, 2 * skew + 1, 2 * skew + 1 + lag);
    var showings := [first, again];
    var (isNew, rows) := Consume(map[], key, 1, retention);
    assert showings[1..] == [again];
    assert Verdicts(map[], showings, skew, retention) == [true] + Verdicts(rows, [again], skew, retention);
    assert key !in Purge(rows, again.consumedAt - retention);
    assert Verdicts(rows, [again], skew, retention)[0];
    assert SamePayload(showings[0], showings[1]);
    assert Timely(showings, lag) && !PassesOnce(showings, skew, retention);
  }

  /**
   * No payload passes twice, whatever else is shown and purged in between, exactly when the
   * retention covers both halves of the clock window and the gap between a request's readings.
   */
  lemma SinglePassExactly(skew: nat, retention: nat, lag: nat)
    ensures (forall showings :: Timely(showings, lag) ==> PassesOnce(showings, skew, retention))
      <==> retention >= 2 * skew + lag
  {
    if retention >= 2 * skew + lag {
      forall showings: seq<Showing> | Timely(showings, lag) ensures PassesOnce(showings, skew, retention) {
        forall i, j | 0 <= i < j < |showings| && SamePayload(showings[i], showings[j])
          ensures !(Verdicts(map[], showings, skew, retention)[i] && Verdicts(map[], showings, skew, retention)[j])
        {
          NotTwice(map[], showings, skew, retention, lag, i, j);
        }
      }
    } else {
      PassesTwice(skew, retention, lag);
    }
  }

  /** The server's own constants leave no slack: they suffice exactly for one reading per request. */
  lemma ServerConstants(lag: nat)
    ensures (forall showings :: Timely(showings, lag) ==> PassesOnce(showings, MAX_CLOCK_SKEW_MS, NONCE_RETENTION_MS))
      <==> lag == 0
  {
    SinglePassExactly(MAX_CLOCK_SKEW_MS, NONCE_RETENTION_MS, lag);
  }
}
