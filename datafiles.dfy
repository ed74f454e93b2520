/** The session registry kept by the server's data-file handler
    (`DataFileHandler`): which session ids are tracked and since when, which of
    them are permanent, and which sessions were recently active; how that
    registry is read from and written to the two files in the configuration
    directory; and where the per-type data directories are.

    Times are whole seconds since the epoch and every operation reads the
    clock once, as the parameter `now`. File contents enter and leave as text:
    `None` for a file that does not exist. */
module DataFiles {
  import opened Results
  import opened Sequences
  import opened Text

  const OneDay: nat := 60 * 60 * 24
  /** How long a session id lives after it is first seen: five days. */
  const UuidTimeout: nat := OneDay * 5
  /** How long a session stays active without mouse events: five minutes. */
  const SessionTimeout: nat := 60 * 5
  /** The start time given to a permanent id: a year ahead. */
  const PermanentLifetime: nat := OneDay * 365

  /** Why reading `UUID_Timeouts.tsv` fails: a line with no tab (IndexError)
      or a time that is not a number (ValueError). */
  datatype DbError = MissingField(line: string) | BadTime(field: string)

  // ---------------------------------------------------------------------------
  // The timeouts table `UUID_Timeouts.tsv`: one `<id>\t<start>\n` per line

  /** `str(float(t))` for a whole number of seconds. */
  function TimeText(t: nat): string {
    Decimal(t) + ".0"
  }

  /** `float(s)` on a decimal number `digits[.digits]` (one side may be
      empty), keeping the whole seconds; any other text is a ValueError. */
  function ParseTime(s: string): (r: Option<nat>)
    ensures '.' !in s ==> r == ParseNat(s)
  {
    var k := IndexOf(s, '.');
    var whole := s[..k];
    var frac := if k < |s| then s[k + 1..] else "";
    if frac != [] && ParseNat(frac).None? then None
    else if whole != [] then
      assert k == |s| ==> whole == s;
      ParseNat(whole)
    else if frac != [] then Some(0)
    else None
  }

  /** A time written by the table writer reads back as the same time. */
  lemma ParseTimeText(t: nat)
    ensures ParseTime(TimeText(t)) == Some(t)
  {
    var s := TimeText(t);
    var d := Decimal(t);
    assert forall j :: 0 <= j < |d| ==> s[j] == d[j];
    assert s[|d|] == '.';
    var k := IndexOf(s, '.');
    assert k == |d|;
    assert s[..k] == d;
    assert s[k + 1..] == "0";
    assert ParseNat("0") == Some(0);
    ParseDecimal(t);
  }

  /** One line of the table. */
  function TimeoutLine(id: string, t: nat): string {
    id + "\t" + TimeText(t) + "\n"
  }

  /** `ls = line.rstrip('\n').split('\t')`, then `ls[0]` and `float(ls[1])`. */
  function ParseTimeoutLine(line: string): Result<(string, nat), DbError> {
    var fields := Split(StripNewlines(line), '\t');
    if |fields| < 2 then Failure(MissingField(line))
    else
      match ParseTime(fields[1])
      case None => Failure(BadTime(fields[1]))
      case Some(t) => Success((fields[0], t))
  }

  /** Each line of the table parsed on its own. */
  function ParsedLines(lines: seq<string>): (r: seq<Result<(string, nat), DbError>>)
    ensures |r| == |lines|
  {
    seq(|lines|, i requires 0 <= i < |lines| => ParseTimeoutLine(lines[i]))
  }

  /** The loop over the table's parsed lines: the start times after storing
      each entry in turn, and the error of the first line that did not parse
      (the entries before it stay stored). */
  function LoadEntries(m: map<string, nat>, entries: seq<Result<(string, nat), DbError>>): (r: (map<string, nat>, Option<DbError>))
    ensures m.Keys <= r.0.Keys
  {
    if entries == [] then (m, None)
    else
      var (m', err) := LoadEntries(m, entries[..|entries| - 1]);
      if err.Some? then (m', err)
      else
        match entries[|entries| - 1]
        case Failure(e) => (m', Some(e))
        case Success(entry) => (m'[entry.0 := entry.1], None)
  }

  /** Reading the table: all lines stored, or the first bad line's error. */
  function ReadTimeouts(m: map<string, nat>, lines: seq<string>): Result<map<string, nat>, DbError> {
    var (m', err) := LoadEntries(m, ParsedLines(lines));
    if err.None? then Success(m') else Failure(err.value)
  }

  /** Once a prefix of the entries fails, the rest are never looked at. */
  lemma {:induction false} LoadEntriesStopsAtError(m: map<string, nat>, entries: seq<Result<(string, nat), DbError>>, n: nat)
    requires n <= |entries| && LoadEntries(m, entries[..n]).1.Some?
    ensures LoadEntries(m, entries) == LoadEntries(m, entries[..n])
    decreases |entries| - n
  {
    if n < |entries| {
      assert entries[..n + 1][..n] == entries[..n];
      LoadEntriesStopsAtError(m, entries, n + 1);
    } else {
      assert entries[..n] == entries;
    }
  }

  /** A table with one bad line cannot be read. */
  lemma BadLineFailsRead(m: map<string, nat>, lines: seq<string>, i: nat)
    requires i < |lines| && ParseTimeoutLine(lines[i]).Failure?
    ensures ReadTimeouts(m, lines).Failure?
  {
    var es := ParsedLines(lines);
    assert es[i].Failure?;
    var prefix := es[..i + 1];
    assert prefix[..i] == es[..i];
    assert LoadEntries(m, prefix).1.Some?;
    LoadEntriesStopsAtError(m, es, i + 1);
  }

  /** The lines the writer emits for `ids`, in that order. */
  function TimeoutLines(ids: seq<string>, m: map<string, nat>): (ls: seq<string>)
    requires forall i :: 0 <= i < |ids| ==> ids[i] in m
    ensures |ls| == |ids|
    ensures forall i :: 0 <= i < |ids| ==> ls[i] == TimeoutLine(ids[i], m[ids[i]])
  {
    seq(|ids|, i requires 0 <= i < |ids| => TimeoutLine(ids[i], m[ids[i]]))
  }

  /** An id the table can hold: the separators do not occur in it. */
  predicate PlainId(id: string) {
    '\t' !in id && '\n' !in id
  }

  /** `ids` lists the keys of `m` that are not in `permanent`, each once: the
      order `update_UUID_db` walks them in. */
  ghost predicate ListsNonPermanent(ids: seq<string>, m: map<string, nat>, permanent: set<string>) {
    && Distinct(ids)
    && (forall i :: 0 <= i < |ids| ==> ids[i] in m && ids[i] !in permanent)
    && (forall id :: id in m && id !in permanent ==> id in ids)
  }

  /** A written line parses back to the id and the time it was written from. */
  lemma ParseTimeoutLineOf(id: string, t: nat)
    requires PlainId(id)
    ensures ParseTimeoutLine(TimeoutLine(id, t)) == Success((id, t))
  {
    var body := id + "\t" + TimeText(t);
    assert TimeoutLine(id, t) == body + "\n";
    assert forall j :: 0 <= j < |TimeText(t)| ==> TimeText(t)[j] != '\n' && TimeText(t)[j] != '\t' by {
      forall j | 0 <= j < |TimeText(t)| ensures TimeText(t)[j] != '\n' && TimeText(t)[j] != '\t' {
        if j < |Decimal(t)| {
          assert TimeText(t)[j] == Decimal(t)[j];
        }
      }
    }
    assert '\n' !in body;
    StripNewlinesOfLine(body);
    assert Join(['\t'], [id, TimeText(t)]) == body;
    SplitJoin([id, TimeText(t)], '\t');
    ParseTimeText(t);
  }

  /** A written line is a line `readlines` returns whole. */
  lemma TimeoutLineIsLine(id: string, t: nat)
    requires PlainId(id)
    ensures IsLine(TimeoutLine(id, t)) && TimeoutLine(id, t)[|TimeoutLine(id, t)| - 1] == '\n'
  {
    var l := TimeoutLine(id, t);
    forall j | 0 <= j < |l| - 1 ensures l[j] != '\n' {
      if j < |id| {
        assert l[j] == id[j];
      } else if j > |id| {
        assert l[j] == TimeText(t)[j - |id| - 1];
        if j - |id| - 1 < |Decimal(t)| {
          assert TimeText(t)[j - |id| - 1] == Decimal(t)[j - |id| - 1];
        }
      }
    }
  }

  /** One more entry that parsed is stored over what the earlier ones left. */
  lemma LoadEntriesGood(m: map<string, nat>, entries: seq<Result<(string, nat), DbError>>, id: string, t: nat)
    requires LoadEntries(m, entries).1.None?
    ensures LoadEntries(m, entries + [Success((id, t))]) == (LoadEntries(m, entries).0[id := t], None)
  {
    assert (entries + [Success((id, t))])[..|entries|] == entries;
  }

  /** The start times of the listed ids, and only those. */
  lemma RestrictSnoc(ids: seq<string>, last: string, m: map<string, nat>)
    requires last in m && forall i :: 0 <= i < |ids| ==> ids[i] in m
    ensures (map id | id in ids + [last] :: m[id]) == (map id | id in ids :: m[id])[last := m[last]]
  {
    assert forall id :: id in ids + [last] <==> id in ids || id == last;
  }

  /** Loading entries that name `ids` in turn with their times in `m` stores
      the start time of each of those ids. */
  lemma {:induction false} LoadGoodEntries(entries: seq<Result<(string, nat), DbError>>, ids: seq<string>, m: map<string, nat>)
    requires |entries| == |ids|
    requires forall i :: 0 <= i < |ids| ==> ids[i] in m && entries[i] == Success((ids[i], m[ids[i]]))
    ensures LoadEntries(map[], entries) == (map id | id in ids :: m[id], None)
  {
    if ids != [] {
      var n := |ids| - 1;
      var entries', ids' := entries[..n], ids[..n];
      LoadGoodEntries(entries', ids', m);
      assert entries == entries' + [Success((ids[n], m[ids[n]]))];
      LoadEntriesGood(map[], entries', ids[n], m[ids[n]]);
      assert ids == ids' + [ids[n]];
      RestrictSnoc(ids', ids[n], m);
    }
  }

  /** Loading the lines written for `ids` stores the start time of each of them. */
  lemma LoadWrittenLines(ids: seq<string>, m: map<string, nat>)
    requires forall i :: 0 <= i < |ids| ==> ids[i] in m && PlainId(ids[i])
    ensures LoadEntries(map[], ParsedLines(TimeoutLines(ids, m))) == (map id | id in ids :: m[id], None)
  {
    var es := ParsedLines(TimeoutLines(ids, m));
    forall i | 0 <= i < |ids| ensures es[i] == Success((ids[i], m[ids[i]])) {
      ParseTimeoutLineOf(ids[i], m[ids[i]]);
    }
    LoadGoodEntries(es, ids, m);
  }

  /** `readlines` gives back the written lines one by one. */
  lemma LinesOfWritten(ids: seq<string>, m: map<string, nat>)
    requires forall i :: 0 <= i < |ids| ==> ids[i] in m && PlainId(ids[i])
    ensures Lines(Join("", TimeoutLines(ids, m))) == TimeoutLines(ids, m)
  {
    var ls := TimeoutLines(ids, m);
    forall i | 0 <= i < |ls| ensures IsLine(ls[i]) && ls[i][|ls[i]| - 1] == '\n' {
      TimeoutLineIsLine(ids[i], m[ids[i]]);
    }
    LinesOfJoin(ls);
  }

  /** The ids a listing names are exactly the non-permanent keys. */
  lemma ListedStartTimes(ids: seq<string>, m: map<string, nat>, permanent: set<string>)
    requires ListsNonPermanent(ids, m, permanent)
    ensures (map id | id in ids :: m[id]) == (map id | id in m && id !in permanent :: m[id])
  {
  }

  /** Reading back the table `update_UUID_db` writes restores exactly the
      start times of the non-permanent ids, whatever order they were written in. */
  lemma TimeoutsRoundTrip(ids: seq<string>, m: map<string, nat>, permanent: set<string>)
    requires ListsNonPermanent(ids, m, permanent)
    requires forall id :: id in m ==> PlainId(id)
    ensures ReadTimeouts(map[], Lines(Join("", TimeoutLines(ids, m)))) ==
      Success(map id | id in m && id !in permanent :: m[id])
  {
    LinesOfWritten(ids, m);
    LoadWrittenLines(ids, m);
    ListedStartTimes(ids, m, permanent);
  }

  // ---------------------------------------------------------------------------
  // The permanent list `Permanent_Session_IDs.txt`: one id per line

  /** The ids a permanent list names: each line without its trailing newlines. */
  function PermanentIds(lines: seq<string>): set<string> {
    set i | 0 <= i < |lines| :: StripNewlines(lines[i])
  }

  /** The permanent list `read_UUID_db` creates when there is none. */
  function CreatedPermanentList(freshId: string): string {
    "SCopeApp__" + freshId + "\n"
  }

  // ---------------------------------------------------------------------------
  // Data directories

  /** The three per-user directories the platform provides. */
  datatype PlatformDirs = PlatformDirs(userData: string, userConfig: string, userLog: string)

  /** The KeyError for a file type with no data directory. */
  datatype DirError = UnknownFileType(fileType: string)

  /** `os.path.join(a, b)` on POSIX: an absolute `b` replaces `a`; otherwise
      `b` is appended after a separator unless `a` is empty or already ends
      with one. */
  function PathJoin(a: string, b: string): (p: string)
    ensures StartsWith(b, "/") ==> p == b
    ensures !StartsWith(b, "/") ==> |p| == |a| + |b| || |p| == |a| + 1 + |b|
    ensures !StartsWith(b, "/") ==> StartsWith(p, a) && p[|p| - |b|..] == b
    ensures !StartsWith(b, "/") && (a == [] || a[|a| - 1] == '/') ==> p == a + b
    ensures !StartsWith(b, "/") && a != [] && a[|a| - 1] != '/' ==> p == a + "/" + b
  {
    if StartsWith(b, "/") then b
    else if a == [] || a[|a| - 1] == '/' then
      assert (a + b)[|a + b| - |b|..] == b;
      a + b
    else
      assert (a + "/" + b)[|a + "/" + b| - |b|..] == b;
      a + "/" + b
  }

  /** The file types with a directory per session id. */
  const SessionDirTypes: set<string> := {"Loom", "GeneSet", "LoomAUCellRankings"}

  /** `data_dirs`: the directory of each file type. */
  function DataDirs(p: PlatformDirs): map<string, string> {
    map[
      "Loom" := PathJoin(p.userData, "my-looms"),
      "GeneSet" := PathJoin(p.userData, "my-gene-sets"),
      "LoomAUCellRankings" := PathJoin(p.userData, "my-aucell-rankings"),
      "Config" := p.userConfig,
      "Logs" := p.userLog]
  }

  /** `get_data_dir_path_by_file_type`: a session's own directory for the
      three session types when an id is given, the type's directory otherwise. */
  function DataDirPath(p: PlatformDirs, fileType: string, uuid: Option<string>): (r: Result<string, DirError>)
    ensures r.Failure? <==> fileType !in {"Loom", "GeneSet", "LoomAUCellRankings", "Config", "Logs"}
    ensures r.Success? && fileType in SessionDirTypes && uuid.Some? ==>
      r.value == PathJoin(DataDirs(p)[fileType], uuid.value)
    ensures r.Success? && !(fileType in SessionDirTypes && uuid.Some?) ==> r.value == DataDirs(p)[fileType]
  {
    if fileType in SessionDirTypes && uuid.Some? then Success(PathJoin(DataDirs(p)[fileType], uuid.value))
    else if fileType in DataDirs(p) then Success(DataDirs(p)[fileType])
    else Failure(UnknownFileType(fileType))
  }

  /** A session directory lies inside its type's directory, under the id. */
  lemma SessionDirInsideTypeDir(p: PlatformDirs, fileType: string, id: string)
    requires fileType in SessionDirTypes && !StartsWith(id, "/")
    ensures DataDirPath(p, fileType, Some(id)).Success?
    ensures StartsWith(DataDirPath(p, fileType, Some(id)).value, DataDirs(p)[fileType])
  {
  }

  // ---------------------------------------------------------------------------
  // Active sessions

  /** The active sessions `active_session_check` keeps: tracked ids idle for
      at most `SessionTimeout`, with their timestamps. */
  function LiveSessions(active: map<string, nat>, current: map<string, nat>, now: nat): (r: map<string, nat>)
    ensures forall id :: id in r <==> id in active && id in current && now - active[id] <= SessionTimeout
    ensures forall id :: id in r ==> r[id] == active[id]
  {
    map id | id in active && id in current && now - active[id] <= SessionTimeout :: active[id]
  }

  // ---------------------------------------------------------------------------
  // The handler

  /** The registry as a value. */
  datatype Registry = Registry(current: map<string, nat>, permanent: set<string>, active: map<string, nat>)

  class DataFileHandler {
    /** Session id -> start time. */
    var currentUUIDs: map<string, nat>
    /** Ids listed in the permanent list. */
    var permanentUUIDs: set<string>
    /** Session id -> time of last activity. */
    var activeSessions: map<string, nat>

    function Snapshot(): Registry
      reads this
    {
      Registry(currentUUIDs, permanentUUIDs, activeSessions)
    }

    constructor ()
      ensures Snapshot() == Registry(map[], {}, map[])
    {
      currentUUIDs := map[];
      permanentUUIDs := {};
      activeSessions := map[];
    }

    /** The loop over the timeouts table: store each line's id and time; a
        bad line raises, leaving the lines before it stored. */
    method LoadTimeouts(lines: seq<string>) returns (r: Result<(), DbError>)
      modifies this`currentUUIDs
      ensures currentUUIDs == LoadEntries(old(currentUUIDs), ParsedLines(lines)).0
      ensures r.Failure? <==> LoadEntries(old(currentUUIDs), ParsedLines(lines)).1.Some?
      ensures r.Failure? ==> r.error == LoadEntries(old(currentUUIDs), ParsedLines(lines)).1.value
    {
      ghost var es := ParsedLines(lines);
      for i := 0 to |lines|
        invariant LoadEntries(old(currentUUIDs), es[..i]) == (currentUUIDs, None)
      {
        assert es[..i + 1][..i] == es[..i];
        var entry := ParseTimeoutLine(lines[i]);
        assert es[i] == entry;
        if entry.Failure? {
          LoadEntriesStopsAtError(old(currentUUIDs), es, i + 1);
          return Failure(entry.error);
        }
        currentUUIDs := currentUUIDs[entry.value.0 := entry.value.1];
      }
      assert es[..|lines|] == es;
      r := Success(());
    }

    /** The loop over a permanent list: each line's id becomes permanent and
        starts a year from now, replacing any start time it had. */
    method MergePermanentList(lines: seq<string>, now: nat)
      modifies this`currentUUIDs, this`permanentUUIDs
      ensures permanentUUIDs == old(permanentUUIDs) + PermanentIds(lines)
      ensures currentUUIDs.Keys == old(currentUUIDs).Keys + PermanentIds(lines)
      ensures forall id :: id in PermanentIds(lines) ==> currentUUIDs[id] == now + PermanentLifetime
      ensures forall id :: id in old(currentUUIDs) && id !in PermanentIds(lines) ==>
        currentUUIDs[id] == old(currentUUIDs)[id]
    {
      for i := 0 to |lines|
        invariant permanentUUIDs == old(permanentUUIDs) + PermanentIds(lines[..i])
        invariant currentUUIDs.Keys == old(currentUUIDs).Keys + PermanentIds(lines[..i])
        invariant forall id :: id in PermanentIds(lines[..i]) ==> currentUUIDs[id] == now + PermanentLifetime
        invariant forall id :: id in old(currentUUIDs) && id !in PermanentIds(lines[..i]) ==>
          currentUUIDs[id] == old(currentUUIDs)[id]
      {
        var id := StripNewlines(lines[i]);
        PermanentIdsSnoc(lines, i);
        permanentUUIDs := permanentUUIDs + {id};
        currentUUIDs := currentUUIDs[id := now + PermanentLifetime];
      }
      assert lines[..|lines|] == lines;
    }

    /** `read_UUID_db`: load the timeouts table if there is one, then merge
        the permanent list, or create one naming a fresh id when there is
        none. Returns the text of the list it created, if it created one. */
    method ReadUUIDDb(timeoutsFile: Option<string>, permanentFile: Option<string>, now: nat, freshId: string)
      returns (r: Result<Option<string>, DbError>)
      modifies this`currentUUIDs, this`permanentUUIDs
      ensures timeoutsFile.Some? && ReadTimeouts(old(currentUUIDs), Lines(timeoutsFile.value)).Failure? ==>
        r == Failure(ReadTimeouts(old(currentUUIDs), Lines(timeoutsFile.value)).error) &&
        currentUUIDs == LoadEntries(old(currentUUIDs), ParsedLines(Lines(timeoutsFile.value))).0 &&
        permanentUUIDs == old(permanentUUIDs)
      ensures r.Success? <==> timeoutsFile.None? || ReadTimeouts(old(currentUUIDs), Lines(timeoutsFile.value)).Success?
      ensures r.Success? && permanentFile.Some? ==>
        r.value.None? &&
        permanentUUIDs == old(permanentUUIDs) + PermanentIds(Lines(permanentFile.value)) &&
        (forall id :: id in PermanentIds(Lines(permanentFile.value)) ==>
          id in currentUUIDs && currentUUIDs[id] == now + PermanentLifetime)
      ensures r.Success? && permanentFile.None? ==>
        r.value == Some(CreatedPermanentList(freshId)) &&
        permanentUUIDs == old(permanentUUIDs) &&
        ("SCopeApp__" + freshId) in currentUUIDs &&
        currentUUIDs["SCopeApp__" + freshId] == now + PermanentLifetime
      ensures r.Success? ==> forall id :: id in currentUUIDs <==>
        id in Loaded(old(currentUUIDs), timeoutsFile) || id in NamedPermanent(permanentFile, freshId)
      ensures r.Success? ==> forall id ::
        (id in Loaded(old(currentUUIDs), timeoutsFile) && id !in NamedPermanent(permanentFile, freshId)) ==>
        currentUUIDs[id] == Loaded(old(currentUUIDs), timeoutsFile)[id]
    {
      if timeoutsFile.Some? {
        var loaded := LoadTimeouts(Lines(timeoutsFile.value));
        if loaded.Failure? {
          return Failure(loaded.error);
        }
      }
      if permanentFile.Some? {
        MergePermanentList(Lines(permanentFile.value), now);
        r := Success(None);
      } else {
        var created := CreatedPermanentList(freshId);
        currentUUIDs := currentUUIDs["SCopeApp__" + freshId := now + PermanentLifetime];
        r := Success(Some(created));
      }
    }

    /** `update_UUID_db`: write the timeouts table — one line per tracked id
        that is not permanent, in the dictionary's order — then merge the
        permanent list again if there is one. Returns the table's text. */
    method UpdateUUIDDb(permanentFile: Option<string>, now: nat) returns (table: string)
      modifies this`currentUUIDs, this`permanentUUIDs
      ensures exists ids ::
        (ListsNonPermanent(ids, old(currentUUIDs), old(permanentUUIDs)) &&
         table == Join("", TimeoutLines(ids, old(currentUUIDs))))
      ensures permanentFile.None? ==> currentUUIDs == old(currentUUIDs) && permanentUUIDs == old(permanentUUIDs)
      ensures permanentFile.Some? ==>
        permanentUUIDs == old(permanentUUIDs) + PermanentIds(Lines(permanentFile.value)) &&
        currentUUIDs.Keys == old(currentUUIDs).Keys + PermanentIds(Lines(permanentFile.value)) &&
        (forall id :: id in PermanentIds(Lines(permanentFile.value)) ==> currentUUIDs[id] == now + PermanentLifetime) &&
        (forall id :: id in old(currentUUIDs) && id !in PermanentIds(Lines(permanentFile.value)) ==>
          currentUUIDs[id] == old(currentUUIDs)[id])
    {
      table := "";
      ghost var written: seq<string> := [];
      var remaining := currentUUIDs.Keys;
      while remaining != {}
        invariant currentUUIDs == old(currentUUIDs) && permanentUUIDs == old(permanentUUIDs)
        invariant remaining <= currentUUIDs.Keys
        invariant Distinct(written)
        invariant forall i :: 0 <= i < |written| ==>
          written[i] in currentUUIDs && written[i] !in permanentUUIDs && written[i] !in remaining
        invariant forall id :: id in currentUUIDs && id !in permanentUUIDs && id !in remaining ==> id in written
        invariant table == Join("", TimeoutLines(written, currentUUIDs))
        decreases remaining
      {
        var id :| id in remaining;
        if id !in permanentUUIDs {
          assert TimeoutLines(written + [id], currentUUIDs) == TimeoutLines(written, currentUUIDs) + [TimeoutLine(id, currentUUIDs[id])];
          JoinSnoc(TimeoutLines(written, currentUUIDs), TimeoutLine(id, currentUUIDs[id]));
          table := table + TimeoutLine(id, currentUUIDs[id]);
          written := written + [id];
        }
        remaining := remaining - {id};
      }
      assert ListsNonPermanent(written, currentUUIDs, permanentUUIDs);
      if permanentFile.Some? {
        MergePermanentList(Lines(permanentFile.value), now);
      }
    }

    /** `active_session_check`: drop every active session idle for longer than
        `SessionTimeout` or whose id is no longer tracked. */
    method ActiveSessionCheck(now: nat)
      modifies this`activeSessions
      ensures activeSessions == LiveSessions(old(activeSessions), currentUUIDs, now)
    {
      var keys := activeSessions.Keys;
      while keys != {}
        invariant keys <= old(activeSessions).Keys
        invariant activeSessions == map id | id in old(activeSessions) &&
          (id in keys || (id in currentUUIDs && now - old(activeSessions)[id] <= SessionTimeout)) :: old(activeSessions)[id]
        decreases keys
      {
        var id :| id in keys;
        if now - activeSessions[id] > SessionTimeout || id !in currentUUIDs {
          activeSessions := activeSessions - {id};
        }
        keys := keys - {id};
      }
    }

    /** `reset_active_session_timeout`: the session is active as of now. */
    method ResetActiveSessionTimeout(id: string, now: nat)
      modifies this`activeSessions
      ensures activeSessions == old(activeSessions)[id := now]
    {
      activeSessions := activeSessions[id := now];
    }
  }

  /** The start times once the timeouts table, if any, is loaded. */
  function Loaded(m: map<string, nat>, timeoutsFile: Option<string>): map<string, nat> {
    if timeoutsFile.None? then m
    else
      match ReadTimeouts(m, Lines(timeoutsFile.value))
      case Success(m') => m'
      case Failure(_) => m
  }

  /** The ids `read_UUID_db` dates a year ahead: those of the permanent list,
      or the id of the list it creates. */
  function NamedPermanent(permanentFile: Option<string>, freshId: string): set<string> {
    if permanentFile.Some? then PermanentIds(Lines(permanentFile.value)) else {"SCopeApp__" + freshId}
  }

  lemma PermanentIdsSnoc(lines: seq<string>, i: nat)
    requires i < |lines|
    ensures PermanentIds(lines[..i + 1]) == PermanentIds(lines[..i]) + {StripNewlines(lines[i])}
  {
    var a := lines[..i + 1];
    assert a[i] == lines[i];
    assert forall j :: 0 <= j < i ==> a[j] == lines[..i][j];
  }
}
