/**
 * The archiver of audit logs: old logs are appended to files batch by batch and then deleted from the hot table. Any
 * operation may be the last one that succeeds, and a failing write may leave a torn line behind.
 */
module AuditArchive {
  import opened Text

  datatype Path = Path(year: int, month: int, section: string)

  datatype Log = Log(id: string, at: int, path: Path, body: string)

  /** What an append leaves in a file: a whole line, or the beginning of one without its line end. */
  datatype Piece = Line(log: Log) | Torn(log: Log)

  type Hot = map<string, Log>

  type Files = map<Path, seq<Piece>>

  const BatchSize := 500

  function FileAt(files: Files, path: Path): seq<Piece> {
    if path in files then files[path] else []
  }

  function WithPiece(files: Files, piece: Piece): Files {
    files[piece.log.path := FileAt(files, piece.log.path) + [piece]]
  }

  /** The first n logs, each as a line at the end of its file. */
  function WithLines(files: Files, logs: seq<Log>, n: nat): Files
    requires n <= |logs|
  {
    if n == 0 then files else WithPiece(WithLines(files, logs, n - 1), Line(logs[n - 1]))
  }

  function WithTorn(files: Files, torn: Option<Log>): Files {
    if torn.Some? then WithPiece(files, Torn(torn.value)) else files
  }

  /** What a stretch of a run has written. */
  ghost predicate Wrote(was: Files, files: Files, appended: seq<Log>, torn: Option<Log>) {
    files == WithTorn(WithLines(was, appended, |appended|), torn)
  }

  ghost predicate Saved(files: Files, log: Log) {
    Line(log) in FileAt(files, log.path)
  }

  ghost predicate Keyed(hot: Hot) {
    forall id | id in hot :: hot[id].id == id
  }

  /** Files only grow. */
  ghost predicate Extends(files: Files, was: Files) {
    forall path :: FileAt(was, path) <= FileAt(files, path)
  }

  /** Every log is still hot or saved; only saved logs older than the cutoff have left. */
  ghost predicate Safe(wasHot: Hot, wasFiles: Files, hot: Hot, files: Files, cutoff: int) {
    && Extends(files, wasFiles)
    && (forall id | id in hot :: id in wasHot && hot[id] == wasHot[id])
    && (forall id | id in wasHot && id !in hot :: wasHot[id].at < cutoff && Saved(files, wasHot[id]))
  }

  /** Different old logs of the table. */
  ghost predicate OldLogs(hot: Hot, cutoff: int, logs: seq<Log>) {
    && (forall i | 0 <= i < |logs| :: logs[i].id in hot && hot[logs[i].id] == logs[i] && logs[i].at < cutoff)
    && (forall i, j | 0 <= i < j < |logs| :: logs[i].id != logs[j].id)
  }

  ghost predicate IsBatch(hot: Hot, cutoff: int, logs: seq<Log>) {
    |logs| <= BatchSize && OldLogs(hot, cutoff, logs) && (logs == [] <==> forall id | id in hot :: hot[id].at >= cutoff)
  }

  function Ids(logs: seq<Log>): set<string> {
    set i | 0 <= i < |logs| :: logs[i].id
  }

  function Old(hot: Hot, cutoff: int): set<string> {
    set id | id in hot && hot[id].at < cutoff
  }

  // ---------------------------------------------------------------- what appending does

  lemma SavedStays(files: Files, was: Files, log: Log)
    requires Extends(files, was) && Saved(was, log)
    ensures Saved(files, log)
  {
    assert FileAt(was, log.path) <= FileAt(files, log.path);
  }

  lemma {:induction false} LinesExtend(files: Files, logs: seq<Log>, n: nat)
    requires n <= |logs|
    ensures Extends(WithLines(files, logs, n), files)
    ensures forall i | 0 <= i < n :: Saved(WithLines(files, logs, n), logs[i])
  {
    if n > 0 {
      LinesExtend(files, logs, n - 1);
      var before := WithLines(files, logs, n - 1);
      assert Extends(WithPiece(before, Line(logs[n - 1])), before);
      forall i | 0 <= i < n - 1 ensures Saved(WithLines(files, logs, n), logs[i]) {
        SavedStays(WithLines(files, logs, n), before, logs[i]);
      }
    }
  }

  lemma WroteExtends(was: Files, files: Files, appended: seq<Log>, torn: Option<Log>)
    requires Wrote(was, files, appended, torn)
    ensures Extends(files, was) && forall i | 0 <= i < |appended| :: Saved(files, appended[i])
  {
    var lines := WithLines(was, appended, |appended|);
    LinesExtend(was, appended, |appended|);
    assert Extends(files, lines);
    forall path ensures FileAt(was, path) <= FileAt(files, path) {
      assert FileAt(was, path) <= FileAt(lines, path) <= FileAt(files, path);
    }
    forall i | 0 <= i < |appended| ensures Saved(files, appended[i]) {
      SavedStays(files, lines, appended[i]);
    }
  }

  lemma {:induction false} LinesSplit(files: Files, a: seq<Log>, b: seq<Log>, n: nat)
    requires n <= |b|
    ensures WithLines(files, a + b, |a| + n) == WithLines(WithLines(files, a, |a|), b, n)
  {
    if n == 0 {
      LinesPrefix(files, a, b, |a|);
    } else {
      LinesSplit(files, a, b, n - 1);
      assert (a + b)[|a| + n - 1] == b[n - 1];
    }
  }

  lemma {:induction false} LinesPrefix(files: Files, a: seq<Log>, b: seq<Log>, n: nat)
    requires n <= |a|
    ensures WithLines(files, a + b, n) == WithLines(files, a, n)
  {
    if n > 0 {
      LinesPrefix(files, a, b, n - 1);
    }
  }

  /** What the batch has written continues what the run had written. */
  lemma WroteThen(was: Files, mid: Files, files: Files, appended: seq<Log>, logs: seq<Log>, n: nat, torn: Option<Log>)
    requires Wrote(was, mid, appended, None) && n <= |logs| && files == WithTorn(WithLines(mid, logs, n), torn)
    ensures Wrote(was, files, appended + logs[..n], torn)
  {
    assert logs[..n] + logs[n..] == logs;
    LinesPrefix(mid, logs[..n], logs[n..], n);
    LinesSplit(was, appended, logs[..n], n);
  }

  /** A batch that is appended and deleted leaves the table safe, and so does one that is only appended. */
  lemma BatchIsSafe(hot: Hot, was: Files, files: Files, cutoff: int, logs: seq<Log>, n: nat, torn: Option<Log>, deleted: bool)
    requires OldLogs(hot, cutoff, logs) && n <= |logs| && files == WithTorn(WithLines(was, logs, n), torn)
    requires deleted ==> n == |logs|
    ensures Safe(hot, was, if deleted then hot - Ids(logs) else hot, files, cutoff)
  {
    assert Wrote(was, was, [], None);
    WroteThen(was, was, files, [], logs, n, torn);
    assert [] + logs[..n] == logs[..n];
    WroteExtends(was, files, logs[..n], torn);
    if deleted {
      forall id | id in hot && id !in hot - Ids(logs) ensures hot[id].at < cutoff && Saved(files, hot[id]) {
        var i :| 0 <= i < |logs| && logs[i].id == id;
        assert logs[..n][i] == logs[i];
      }
    }
  }

  class Archiver {
    var hot: Hot
    var files: Files
    var luck: nat      // how many more operations succeed
    var tears: bool    // whether the failing write leaves a torn line

    constructor (hot: Hot, luck: nat, tears: bool)
      ensures this.hot == hot && files == map[] && this.luck == luck && this.tears == tears
    {
      this.hot, files, this.luck, this.tears := hot, map[], luck, tears;
    }

    /** From now on more operations succeed. */
    method Repair(more: nat)
      modifies this`luck
      ensures luck == old(luck) + more
    {
      luck := luck + more;
    }

    /** Up to a batch of the old logs, whichever they are. */
    method Fetch(cutoff: int) returns (logs: seq<Log>)
      requires Keyed(hot)
      ensures IsBatch(hot, cutoff, logs)
    {
      logs := [];
      var left := Old(hot, cutoff);
      while left != {} && |logs| < BatchSize
        invariant left <= Old(hot, cutoff) && |logs| <= BatchSize && OldLogs(hot, cutoff, logs)
        invariant forall i | 0 <= i < |logs| :: logs[i].id !in left
        invariant logs == [] ==> left == Old(hot, cutoff)
      {
        var id :| id in left;
        left := left - {id};
        logs := logs + [hot[id]];
      }
      if logs == [] {
        forall id | id in hot ensures hot[id].at >= cutoff {
          assert id !in Old(hot, cutoff);
        }
      } else {
        assert hot[logs[0].id].at < cutoff;
      }
    }

    method Append(log: Log) returns (ok: bool)
      modifies this`files, this`luck
      ensures ok <==> old(luck) > 0
      ensures luck == if ok then old(luck) - 1 else 0
      ensures files == if ok then WithPiece(old(files), Line(log)) else WithTorn(old(files), if tears then Some(log) else None)
    {
      if luck == 0 {
        if tears {
          files := files[log.path := FileAt(files, log.path) + [Torn(log)]];
        }
        return false;
      }
      luck := luck - 1;
      files := files[log.path := FileAt(files, log.path) + [Line(log)]];
      return true;
    }

    /** Append every log of the batch, then delete the batch. */
    method ProcessBatch(logs: seq<Log>, cutoff: int) returns (ok: bool, ghost written: nat, ghost torn: Option<Log>)
      requires Keyed(hot) && IsBatch(hot, cutoff, logs)
      modifies this`hot, this`files, this`luck
      ensures Keyed(hot) && Safe(old(hot), old(files), hot, files, cutoff)
      ensures written <= |logs| && files == WithTorn(WithLines(old(files), logs, written), torn)
      ensures ok <==> old(luck) > |logs|
      ensures luck == if ok then old(luck) - |logs| - 1 else 0
      ensures hot == if ok then old(hot) - Ids(logs) else old(hot)
      ensures ok ==> written == |logs| && torn == None
      ensures !tears ==> torn == None
      ensures tears && old(luck) == 0 && logs != [] ==> written == 0 && torn == Some(logs[0])
    {
      written, torn := 0, None;
      for i := 0 to |logs|
        invariant files == WithLines(old(files), logs, i) && luck == old(luck) - i && hot == old(hot)
      {
        written := i;
        ok := Append(logs[i]);
        if !ok {
          torn := if tears then Some(logs[i]) else None;
          BatchIsSafe(hot, old(files), files, cutoff, logs, i, torn, false);
          return;
        }
      }
      written := |logs|;
      if luck == 0 {
        BatchIsSafe(hot, old(files), files, cutoff, logs, |logs|, None, false);
        return false, |logs|, None;
      }
      luck := luck - 1;
      var ids := set i | 0 <= i < |logs| :: logs[i].id;
      BatchIsSafe(hot, old(files), files, cutoff, logs, |logs|, None, true);
      hot := hot - ids;
      return true, |logs|, None;
    }

    /**
     * Whenever the run stops, every log is hot or saved. It always ends, completely when enough operations succeed, and
     * then no log older than the cutoff is left. What has been written are whole lines of different old logs, the deleted
     * ones among them, and at most one torn line at the end.
     */
    method RunArchive(cutoff: int) returns (complete: bool, ghost appended: seq<Log>, ghost torn: Option<Log>)
      requires Keyed(hot)
      modifies this`hot, this`files, this`luck
      ensures Keyed(hot) && Safe(old(hot), old(files), hot, files, cutoff)
      ensures Wrote(old(files), files, appended, torn) && OldLogs(old(hot), cutoff, appended)
      ensures forall id | id in old(hot) && id !in hot :: old(hot)[id] in appended
      ensures complete ==> torn == None && forall id :: id in hot <==> id in old(hot) && old(hot)[id].at >= cutoff
      ensures !complete ==> luck == 0
      ensures !tears ==> torn == None
      ensures old(luck) > 3 * |Old(old(hot), cutoff)| ==> complete
      ensures tears && old(luck) == 1 && Old(old(hot), cutoff) != {} ==>
                hot == old(hot) && appended == [] && torn.Some? && OldLogs(hot, cutoff, [torn.value])
    {
      appended, torn := [], None;
      while true
        invariant Keyed(hot) && Safe(old(hot), old(files), hot, files, cutoff)
        invariant Wrote(old(files), files, appended, None) && OldLogs(old(hot), cutoff, appended)
        invariant hot == old(hot) - Ids(appended)
        invariant forall id | id in old(hot) && id !in hot :: old(hot)[id] in appended
        invariant luck - 3 * |Old(hot, cutoff)| >= old(luck) - 3 * |Old(old(hot), cutoff)|
        invariant luck == old(luck) || luck + 2 <= old(luck)
        invariant luck == old(luck) ==> appended == []
        decreases |Old(hot, cutoff)|
      {
        if luck == 0 {
          return false, appended, None;
        }
        luck := luck - 1;
        var logs := Fetch(cutoff);
        if |logs| == 0 {
          return true, appended, None;
        }
        ghost var midHot, midFiles := hot, files;
        OldShrinks(hot, cutoff, logs);
        ghost var n: nat;
        var ok;
        ok, n, torn := ProcessBatch(logs, cutoff);
        BatchContinues(old(hot), old(files), midHot, midFiles, hot, files, cutoff, appended, logs, n, torn, ok);
        appended := appended + logs[..n];
        if !ok {
          return false, appended, torn;
        }
      }
    }
  }

  /** A batch, appended and deleted or only appended in part, continues a run. */
  lemma BatchContinues(hot0: Hot, files0: Files, hot1: Hot, files1: Files, hot2: Hot, files2: Files, cutoff: int,
                       appended: seq<Log>, logs: seq<Log>, n: nat, torn: Option<Log>, ok: bool)
    requires Safe(hot0, files0, hot1, files1, cutoff) && Safe(hot1, files1, hot2, files2, cutoff)
    requires Wrote(files0, files1, appended, None) && OldLogs(hot0, cutoff, appended) && hot1 == hot0 - Ids(appended)
    requires OldLogs(hot1, cutoff, logs) && n <= |logs| && files2 == WithTorn(WithLines(files1, logs, n), torn)
    requires hot2 == if ok then hot1 - Ids(logs) else hot1
    requires ok ==> n == |logs|
    ensures Safe(hot0, files0, hot2, files2, cutoff)
    ensures Wrote(files0, files2, appended + logs[..n], torn) && OldLogs(hot0, cutoff, appended + logs[..n])
    ensures ok ==> hot2 == hot0 - Ids(appended + logs[..n])
    ensures forall id | id in hot0 && id !in hot2 :: hot0[id] in appended + logs[..n]
  {
    SafeThen(hot0, files0, hot1, files1, hot2, files2, cutoff);
    WroteThen(files0, files1, files2, appended, logs, n, torn);
    StillOld(hot0, hot1, cutoff, appended, logs, n);
    if ok {
      assert logs[..n] == logs;
      LeftAreAppended(hot0, cutoff, appended + logs);
    } else {
      LeftAreAppended(hot0, cutoff, appended);
      forall id | id in hot0 && id !in hot2 ensures hot0[id] in appended + logs[..n] {
        assert hot0[id] in appended;
      }
    }
  }

  lemma LeftAreAppended(hot: Hot, cutoff: int, appended: seq<Log>)
    requires OldLogs(hot, cutoff, appended)
    ensures forall id | id in hot && id !in hot - Ids(appended) :: hot[id] in appended
  {
    forall id | id in hot && id in Ids(appended) ensures hot[id] in appended {
      var i :| 0 <= i < |appended| && appended[i].id == id;
      assert appended[i] == hot[id];
    }
  }

  lemma StillOld(was: Hot, hot: Hot, cutoff: int, appended: seq<Log>, logs: seq<Log>, n: nat)
    requires OldLogs(was, cutoff, appended) && hot == was - Ids(appended) && OldLogs(hot, cutoff, logs) && n <= |logs|
    ensures OldLogs(was, cutoff, appended + logs[..n])
    ensures hot - Ids(logs) == was - Ids(appended + logs)
  {
    forall i | 0 <= i < n ensures logs[i].id !in Ids(appended) {
      assert logs[i].id in hot;
    }
    var both := appended + logs[..n];
    forall i, j | 0 <= i < j < |both| ensures both[i].id != both[j].id {
      if i < |appended| <= j {
        assert both[i].id in Ids(appended) && both[j] == logs[j - |appended|];
      }
    }
    IdsTogether(appended, logs);
  }

  lemma IdsTogether(a: seq<Log>, b: seq<Log>)
    ensures Ids(a + b) == Ids(a) + Ids(b)
  {
    forall id | id in Ids(a) + Ids(b) ensures id in Ids(a + b) {
      if id in Ids(a) {
        var i :| 0 <= i < |a| && a[i].id == id;
        assert (a + b)[i].id == id;
      } else {
        var i :| 0 <= i < |b| && b[i].id == id;
        assert (a + b)[|a| + i].id == id;
      }
    }
  }

  lemma {:induction false} IdsCount(logs: seq<Log>)
    requires forall i, j | 0 <= i < j < |logs| :: logs[i].id != logs[j].id
    ensures |Ids(logs)| == |logs|
  {
    if logs != [] {
      var front, last := logs[..|logs| - 1], logs[|logs| - 1];
      IdsCount(front);
      assert Ids(logs) == Ids(front) + {last.id} by {
        assert logs == front + [last];
        IdsTogether(front, [last]);
        assert Ids([last]) == {last.id} by {
          assert [last][0].id in Ids([last]);
        }
      }
      assert last.id !in Ids(front);
    }
  }

  lemma OldShrinks(hot: Hot, cutoff: int, logs: seq<Log>)
    requires OldLogs(hot, cutoff, logs)
    ensures |Old(hot - Ids(logs), cutoff)| == |Old(hot, cutoff)| - |logs|
  {
    IdsCount(logs);
    assert Old(hot - Ids(logs), cutoff) == Old(hot, cutoff) - Ids(logs);
    assert Ids(logs) <= Old(hot, cutoff);
    assert Old(hot, cutoff) == (Old(hot, cutoff) - Ids(logs)) + Ids(logs);
  }

  /** Safety carries over from one stretch of a run to the next. */
  lemma SafeThen(hot0: Hot, files0: Files, hot1: Hot, files1: Files, hot2: Hot, files2: Files, cutoff: int)
    requires Safe(hot0, files0, hot1, files1, cutoff) && Safe(hot1, files1, hot2, files2, cutoff)
    ensures Safe(hot0, files0, hot2, files2, cutoff)
  {
    forall path ensures FileAt(files0, path) <= FileAt(files2, path) {
      assert FileAt(files0, path) <= FileAt(files1, path) <= FileAt(files2, path);
    }
    forall id | id in hot0 && id !in hot2 ensures hot0[id].at < cutoff && Saved(files2, hot0[id]) {
      if id !in hot1 {
        SavedStays(files2, files1, hot0[id]);
      }
    }
  }

  // ---------------------------------------------------------------- any number of runs

  datatype Moment = Moment(hot: Hot, files: Files)

  datatype Event = Run(cutoff: int) | Arrival(log: Log)

  /** A run stopped anywhere, or a new log with an id that no hot log has. */
  ghost predicate Follows(m: Moment, e: Event, next: Moment) {
    match e
    case Run(cutoff) => Safe(m.hot, m.files, next.hot, next.files, cutoff)
    case Arrival(log) => log.id !in m.hot && next == m.(hot := m.hot[log.id := log])
  }

  ghost predicate IsHistory(moments: seq<Moment>, events: seq<Event>) {
    |moments| == |events| + 1 && forall i | 0 <= i < |events| :: Follows(moments[i], events[i], moments[i + 1])
  }

  ghost predicate StillHot(m: Moment, log: Log) {
    log.id in m.hot && m.hot[log.id] == log
  }

  /** One of these runs deletes logs of that time. */
  ghost predicate IsDue(events: seq<Event>, i: nat, n: nat, at: int)
    requires i <= n <= |events|
  {
    exists k | i <= k < n :: events[k].Run? && at < events[k].cutoff
  }

  /** Whatever was hot at any moment, before or between the runs, is at every later moment still hot, or old and saved. */
  lemma {:induction false} RunsLoseNothing(moments: seq<Moment>, events: seq<Event>, i: nat, n: nat, log: Log)
    requires IsHistory(moments, events) && i <= n < |moments| && StillHot(moments[i], log)
    ensures StillHot(moments[n], log) || (Saved(moments[n].files, log) && IsDue(events, i, n, log.at))
    decreases n
  {
    if i < n {
      RunsLoseNothing(moments, events, i, n - 1, log);
      assert Follows(moments[n - 1], events[n - 1], moments[n]);
      if StillHot(moments[n - 1], log) {
        if !StillHot(moments[n], log) {
          assert events[n - 1].Run? && log.at < events[n - 1].cutoff;
        }
      } else {
        var k :| i <= k < n - 1 && events[k].Run? && log.at < events[k].cutoff;
        if events[n - 1].Run? {
          SavedStays(moments[n].files, moments[n - 1].files, log);
        }
      }
    }
  }

  // ---------------------------------------------------------------- what a reader of the files gets

  /** A reader splits a file at its line ends, so a torn line swallows the line that follows it. */
  ghost predicate Readable(files: Files, log: Log) {
    Line(log) in Whole(FileAt(files, log.path))
  }

  /** The lines of a file that stand alone. */
  function Whole(pieces: seq<Piece>): seq<Piece> {
    if pieces == [] then []
    else Whole(pieces[..|pieces| - 1]) + if Fits(pieces, |pieces| - 1) then [pieces[|pieces| - 1]] else []
  }

  predicate Fits(pieces: seq<Piece>, i: nat)
    requires i < |pieces|
  {
    pieces[i].Line? && (i == 0 || pieces[i - 1].Line?)
  }

  predicate EndsTorn(files: Files, path: Path) {
    var pieces := FileAt(files, path);
    pieces != [] && pieces[|pieces| - 1].Torn?
  }

  /** The i-th log is the first one that goes to its file. */
  predicate IsFirst(logs: seq<Log>, i: nat)
    requires i < |logs|
  {
    forall j | 0 <= j < i :: logs[j].path != logs[i].path
  }

  /** The log is appended, but not right behind a torn line. */
  ghost predicate Lands(was: Files, logs: seq<Log>, n: nat, log: Log)
    requires n <= |logs|
  {
    exists i | 0 <= i < n :: logs[i] == log && !(EndsTorn(was, log.path) && IsFirst(logs, i))
  }

  lemma PieceReads(files: Files, piece: Piece, log: Log)
    ensures Readable(WithPiece(files, piece), log)
       <==> Readable(files, log) || (piece == Line(log) && !EndsTorn(files, log.path))
  {
    if piece.log.path == log.path {
      var was := FileAt(files, log.path);
      var now := was + [piece];
      assert FileAt(WithPiece(files, piece), log.path) == now;
      assert now[..|now| - 1] == was;
    }
  }

  lemma {:induction false} LinesEndTorn(was: Files, logs: seq<Log>, n: nat, path: Path)
    requires n <= |logs|
    ensures EndsTorn(WithLines(was, logs, n), path)
       <==> EndsTorn(was, path) && forall j | 0 <= j < n :: logs[j].path != path
  {
    if n > 0 {
      LinesEndTorn(was, logs, n - 1, path);
    }
  }

  lemma LandsNext(was: Files, logs: seq<Log>, n: nat, log: Log)
    requires 0 < n <= |logs|
    ensures Lands(was, logs, n, log)
       <==> Lands(was, logs, n - 1, log) || (logs[n - 1] == log && !(EndsTorn(was, log.path) && IsFirst(logs, n - 1)))
  {
  }

  lemma {:induction false} LinesRead(was: Files, logs: seq<Log>, n: nat, log: Log)
    requires n <= |logs|
    ensures Readable(WithLines(was, logs, n), log) <==> Readable(was, log) || Lands(was, logs, n, log)
  {
    if n > 0 {
      LinesRead(was, logs, n - 1, log);
      LinesEndTorn(was, logs, n - 1, log.path);
      PieceReads(WithLines(was, logs, n - 1), Line(logs[n - 1]), log);
      LandsNext(was, logs, n, log);
    }
  }

  /**
   * What a run writes can be read exactly as far as no torn line stands before it: the first log that goes to a file
   * whose last line was torn is swallowed, and nothing else is.
   */
  lemma ReadableAfterRun(was: Files, files: Files, appended: seq<Log>, torn: Option<Log>, log: Log)
    requires Wrote(was, files, appended, torn)
    ensures Readable(files, log) <==> Readable(was, log) || Lands(was, appended, |appended|, log)
  {
    LinesRead(was, appended, |appended|, log);
    if torn.Some? {
      PieceReads(WithLines(was, appended, |appended|), Torn(torn.value), log);
    }
  }

  /** All that a run appends can be read unless it is swallowed by the torn end of a file, and was not there already. */
  lemma AppendedAreReadable(was: Files, files: Files, appended: seq<Log>, torn: Option<Log>, i: nat)
    requires Wrote(was, files, appended, torn) && i < |appended|
    requires forall j, k | 0 <= j < k < |appended| :: appended[j].id != appended[k].id
    ensures Readable(files, appended[i])
       <==> Readable(was, appended[i]) || !EndsTorn(was, appended[i].path) || !IsFirst(appended, i)
  {
    ReadableAfterRun(was, files, appended, torn, appended[i]);
  }

  /**
   * Two runs that lose a log to its reader: the first one tears its line, the second one appends it behind that and
   * deletes it from the table.
   */
  method TornRetry(log: Log, cutoff: int) returns (archiver: Archiver)
    requires log.at < cutoff
    ensures log.id !in archiver.hot
    ensures Saved(archiver.files, log) && !Readable(archiver.files, log)
  {
    archiver := new Archiver(map[log.id := log], 1, true);
    assert log.id in Old(archiver.hot, cutoff);
    var complete, appended, torn := archiver.RunArchive(cutoff);
    assert [torn.value][0] == log;
    assert archiver.files == WithTorn(WithLines(map[], [], 0), Some(log));
    assert Old(archiver.hot, cutoff) == {log.id};
    archiver.Repair(4);
    complete, appended, torn := archiver.RunArchive(cutoff);
    OneOldLog(log, cutoff, appended);
    RetryIsSwallowed(archiver.files, log);
  }

  lemma OneOldLog(log: Log, cutoff: int, logs: seq<Log>)
    requires OldLogs(map[log.id := log], cutoff, logs) && logs != []
    ensures logs == [log]
  {
    assert logs[0] == log && logs[0].id in Ids(logs);
    IdsCount(logs);
    assert Ids(logs) == {log.id};
  }

  lemma RetryIsSwallowed(files: Files, log: Log)
    requires Wrote(WithTorn(map[], Some(log)), files, [log], None)
    ensures !Readable(files, log)
  {
    var was := WithTorn(map[], Some(log));
    assert FileAt(was, log.path) == [] + [Torn(log)];
    assert Whole(FileAt(was, log.path)[..0]) == [];
    ReadableAfterRun(was, files, [log], None, log);
  }
}
