/** The lookup logic of FDBSearching/main.py: a 15-minute cache of each
    switch's forwarding database ("show fdb"), the camera inventory read
    from a spreadsheet export, MAC normalisation, the OUI check against the
    MAC database file, and the two scrapes of the forwarding-database text.
    The clock, the operator's answers and the switch's output are inputs. */
module FdbSearch {
  import opened Common
  import opened Text

  /** How long a cached forwarding database is used without asking. */
  const CacheDurationSeconds: int := 15 * 60

  datatype CacheEntry = CacheEntry(data: string, timestamp: int)

  /** `fdb_cache`: switch address to its last fetched forwarding database. */
  type FdbCache = map<string, CacheEntry>

  /** The cached entry is returned without fetching: it is young enough, or
      it is stale and the operator declined to refresh it. */
  predicate ServedFromCache(cache: FdbCache, host: string, now: int, forceRefresh: bool, answer: string)
  {
    host in cache && !forceRefresh &&
    (now - cache[host].timestamp < CacheDurationSeconds || Lower(answer) != "y")
  }

  /** `get_fdb_info`. `answer` is the operator's reply to the refresh
      question, consulted only for a stale entry; `fetch` is the switch's
      "show fdb" output, or `None` when the command raises (the exception
      then propagates and nothing is cached). */
  function GetFdbInfo(cache: FdbCache, host: string, now: int, forceRefresh: bool, answer: string, fetch: Option<string>): (r: (FdbCache, Option<string>))
    ensures ServedFromCache(cache, host, now, forceRefresh, answer) ==> r == (cache, Some(cache[host].data))
    ensures !ServedFromCache(cache, host, now, forceRefresh, answer) ==> r.1 == fetch
    ensures !ServedFromCache(cache, host, now, forceRefresh, answer) && fetch.Some? ==>
      r.0 == cache[host := CacheEntry(fetch.value, now)]
    ensures r.1.None? ==> r.0 == cache
    ensures forall h :: h != host ==> (h in r.0 <==> h in cache) && (h in cache ==> r.0[h] == cache[h])
  {
    if ServedFromCache(cache, host, now, forceRefresh, answer) then (cache, Some(cache[host].data))
    else match fetch
      case None => (cache, None)
      case Some(output) => (cache[host := CacheEntry(output, now)], Some(output))
  }

  /** Within 15 minutes of a fetch, a lookup without `force_refresh` returns
      the fetched output again, whatever the operator would answer and
      whatever the switch would now say. */
  lemma CachedWithinWindow(cache: FdbCache, host: string, t: int, force: bool, answer: string, output: string,
                           later: int, answer2: string, fetch2: Option<string>)
    requires !ServedFromCache(cache, host, t, force, answer)
    requires t <= later < t + CacheDurationSeconds
    ensures var (c1, _) := GetFdbInfo(cache, host, t, force, answer, Some(output));
      GetFdbInfo(c1, host, later, false, answer2, fetch2) == (c1, Some(output))
  {
  }

  /** A stale entry is refetched on a "y" (in either case) and never otherwise. */
  lemma StaleRefreshOnlyOnYes(cache: FdbCache, host: string, now: int, answer: string, fetch: Option<string>)
    requires host in cache && now - cache[host].timestamp >= CacheDurationSeconds
    ensures ServedFromCache(cache, host, now, false, answer) <==> Lower(answer) != "y"
  {
  }

  /** A row of the camera inventory; a missing column reads as "". */
  datatype Camera = Camera(serverName: string, deviceName: string, ipAddress: string,
                           model: string, macAddress: string, switchPort: string)

  /** Rows before the header row of the inventory export. */
  const SkippedRows: nat := 30

  function ColumnOr(row: seq<string>, i: nat): (r: string)
    ensures i < |row| ==> r == row[i]
    ensures i >= |row| ==> r == ""
  {
    if i < |row| then row[i] else ""
  }

  /** The dictionary `load_camera_csv` builds from one data row. */
  function ToCamera(row: seq<string>): (c: Camera)
    ensures c.serverName == ColumnOr(row, 0) && c.deviceName == ColumnOr(row, 1) && c.ipAddress == ColumnOr(row, 2)
    ensures c.model == ColumnOr(row, 3) && c.macAddress == ColumnOr(row, 4) && c.switchPort == ColumnOr(row, 5)
  {
    Camera(ColumnOr(row, 0), ColumnOr(row, 1), ColumnOr(row, 2), ColumnOr(row, 3), ColumnOr(row, 4), ColumnOr(row, 5))
  }

  /** A data row names a camera when its first cell is non-empty. */
  predicate IsCameraRow(row: seq<string>)
  {
    |row| > 0 && row[0] != ""
  }

  /** The cameras of the data rows, in order. */
  function CameraRows(rows: seq<seq<string>>): (r: seq<Camera>)
    ensures |r| <= |rows|
    ensures forall k :: 0 <= k < |r| ==> r[k].serverName != ""
    decreases |rows|
  {
    if |rows| == 0 then []
    else (if IsCameraRow(rows[0]) then [ToCamera(rows[0])] else []) + CameraRows(rows[1..])
  }

  /** Every camera row is loaded. */
  lemma {:induction false} CameraRowsKeepsRow(rows: seq<seq<string>>, i: nat)
    requires i < |rows| && IsCameraRow(rows[i])
    ensures ToCamera(rows[i]) in CameraRows(rows)
    decreases |rows|
  {
    if i > 0 {
      assert rows[i] == rows[1..][i - 1];
      CameraRowsKeepsRow(rows[1..], i - 1);
    }
  }

  /** Every loaded camera comes from a camera row. */
  lemma {:induction false} CameraRowsFromRows(rows: seq<seq<string>>, c: Camera)
    requires c in CameraRows(rows)
    ensures exists i :: 0 <= i < |rows| && IsCameraRow(rows[i]) && ToCamera(rows[i]) == c
    decreases |rows|
  {
    if |rows| > 0 {
      var head := if IsCameraRow(rows[0]) then [ToCamera(rows[0])] else [];
      if c in head {
        assert IsCameraRow(rows[0]) && ToCamera(rows[0]) == c;
      } else {
        CameraRowsFromRows(rows[1..], c);
        var i :| 0 <= i < |rows[1..]| && IsCameraRow(rows[1..][i]) && ToCamera(rows[1..][i]) == c;
        assert rows[i + 1] == rows[1..][i];
      }
    }
  }

  /** `load_camera_csv` on the rows of the export: 30 rows are skipped, the
      next is the header, and the rest are data. A file too short to reach
      the header yields no cameras (the exception is caught). */
  function LoadCameras(rows: seq<seq<string>>): (r: seq<Camera>)
    ensures |rows| <= SkippedRows + 1 ==> r == []
    ensures forall k :: 0 <= k < |r| ==> r[k].serverName != ""
  {
    if |rows| <= SkippedRows then [] else CameraRows(rows[SkippedRows + 1..])
  }

  /** A camera is loaded exactly when some row after the header row has a
      non-empty first cell and reads as that camera. */
  lemma LoadCamerasIff(rows: seq<seq<string>>, c: Camera)
    ensures c in LoadCameras(rows) <==>
      (exists i :: SkippedRows < i < |rows| && IsCameraRow(rows[i]) && ToCamera(rows[i]) == c)
  {
    if |rows| > SkippedRows {
      var data := rows[SkippedRows + 1..];
      if c in LoadCameras(rows) {
        CameraRowsFromRows(data, c);
        var j :| 0 <= j < |data| && IsCameraRow(data[j]) && ToCamera(data[j]) == c;
        assert rows[SkippedRows + 1 + j] == data[j];
      }
      if exists i :: SkippedRows < i < |rows| && IsCameraRow(rows[i]) && ToCamera(rows[i]) == c {
        var i :| SkippedRows < i < |rows| && IsCameraRow(rows[i]) && ToCamera(rows[i]) == c;
        assert rows[i] == data[i - SkippedRows - 1];
        CameraRowsKeepsRow(data, i - SkippedRows - 1);
      }
    }
  }

  /** `mac.replace(':', '').replace('-', '').lower()`. */
  function NormalizeMac(mac: string): (r: string)
    ensures ':' !in r && '-' !in r
    ensures |r| <= |mac|
  {
    RemoveCharKeeps(mac, ':', ':');
    RemoveCharKeeps(RemoveChar(mac, ':'), '-', ':');
    RemoveCharKeeps(RemoveChar(mac, ':'), '-', '-');
    Lower(RemoveChar(RemoveChar(mac, ':'), '-'))
  }

  /** A MAC without separators is only lower-cased. */
  lemma NormalizeMacPlain(mac: string)
    requires ':' !in mac && '-' !in mac
    ensures NormalizeMac(mac) == Lower(mac)
  {
    RemoveCharAbsent(mac, ':');
    RemoveCharAbsent(mac, '-');
  }

  /** Normalisation works character by character: a separator is dropped
      and anything else is lower-cased in place. */
  lemma NormalizeMacChar(c: char)
    ensures NormalizeMac([c]) == if c == ':' || c == '-' then "" else [LowerChar(c)]
  {
    assert [c][1..] == "";
    var m := RemoveChar([c], ':');
    assert m == if c == ':' then "" else [c];
    if m != "" {
      assert m[1..] == "";
    }
  }

  /** Normalising two pieces separately and joining them is the same as
      normalising the whole. */
  lemma NormalizeMacAppend(a: string, b: string)
    ensures NormalizeMac(a + b) == NormalizeMac(a) + NormalizeMac(b)
  {
    RemoveCharAppend(a, b, ':');
    RemoveCharAppend(RemoveChar(a, ':'), RemoveChar(b, ':'), '-');
    LowerAppend(RemoveChar(RemoveChar(a, ':'), '-'), RemoveChar(RemoveChar(b, ':'), '-'));
  }

  /** `find_camera_by_mac`'s comparison. */
  predicate SameMac(a: string, b: string)
  {
    NormalizeMac(a) == NormalizeMac(b)
  }

  /** Normalising a normalised MAC changes nothing. */
  lemma NormalizeMacIdempotent(mac: string)
    ensures NormalizeMac(NormalizeMac(mac)) == NormalizeMac(mac)
  {
    var n := NormalizeMac(mac);
    RemoveCharAbsent(n, ':');
    RemoveCharAbsent(n, '-');
    LowerIdempotent(RemoveChar(RemoveChar(mac, ':'), '-'));
  }

  /** Case does not matter. */
  lemma NormalizeMacIgnoresCase(mac: string)
    ensures SameMac(Lower(mac), mac)
  {
    var m := RemoveChar(mac, ':');
    LowerRemoveChar(mac, ':');
    LowerRemoveChar(m, '-');
    LowerIdempotent(RemoveChar(m, '-'));
  }

  /** Colons and hyphens do not matter. */
  lemma NormalizeMacIgnoresSeparators(mac: string)
    ensures SameMac(RemoveChar(mac, ':'), mac)
    ensures SameMac(RemoveChar(mac, '-'), mac)
  {
    var m := RemoveChar(mac, ':');
    RemoveCharKeeps(mac, ':', ':');
    RemoveCharAbsent(m, ':');
    RemoveCharCommutes(mac, '-', ':');
    var d := RemoveChar(m, '-');
    RemoveCharKeeps(m, '-', '-');
    RemoveCharAbsent(d, '-');
  }

  /** The order in which two characters are removed does not matter. */
  lemma {:induction false} RemoveCharCommutes(s: string, a: char, b: char)
    ensures RemoveChar(RemoveChar(s, a), b) == RemoveChar(RemoveChar(s, b), a)
    decreases |s|
  {
    if |s| > 0 {
      RemoveCharCommutes(s[1..], a, b);
      var head := [s[0]];
      assert s == head + s[1..];
      RemoveCharAppend(head, s[1..], a);
      RemoveCharAppend(head, s[1..], b);
      RemoveCharAppend(RemoveChar(head, a), RemoveChar(s[1..], a), b);
      RemoveCharAppend(RemoveChar(head, b), RemoveChar(s[1..], b), a);
    }
  }

  /** `find_camera_by_mac`: the first camera, in inventory order, whose MAC
      is the same as `mac` after normalisation. */
  function FindCameraByMac(mac: string, cameras: seq<Camera>): (r: Option<Camera>)
    ensures r.None? <==> forall k :: 0 <= k < |cameras| ==> !SameMac(cameras[k].macAddress, mac)
    ensures r.Some? ==> exists k :: (0 <= k < |cameras| && cameras[k] == r.value && SameMac(cameras[k].macAddress, mac) &&
      forall j :: 0 <= j < k ==> !SameMac(cameras[j].macAddress, mac))
    decreases |cameras|
  {
    if |cameras| == 0 then None
    else if SameMac(cameras[0].macAddress, mac) then Some(cameras[0])
    else
      var r := FindCameraByMac(mac, cameras[1..]);
      assert forall k :: 1 <= k < |cameras| ==> cameras[k] == cameras[1..][k - 1];
      if r.Some? then
        var k :| 0 <= k < |cameras[1..]| && cameras[1..][k] == r.value && SameMac(cameras[1..][k].macAddress, mac) &&
          forall j :: 0 <= j < k ==> !SameMac(cameras[1..][j].macAddress, mac);
        assert forall j :: 0 <= j < k + 1 ==> !SameMac(cameras[j].macAddress, mac) by {
          forall j | 0 <= j < k + 1 ensures !SameMac(cameras[j].macAddress, mac) {
            if j > 0 { assert cameras[j] == cameras[1..][j - 1]; }
          }
        }
        assert cameras[k + 1] == r.value;
        r
      else r
  }

  /** The first six characters (three octets without separators) of a text. */
  function Oui(s: string): (r: string)
    ensures r <= s
    ensures |r| == if |s| < 6 then |s| else 6
  {
    if |s| < 6 then s else s[..6]
  }

  /** `s.replace(':', '').lower()[:6]`: hyphens are kept. */
  function OuiKey(s: string): string
  {
    Oui(Lower(RemoveChar(s, ':')))
  }

  /** Only the first three octets of the operator's MAC are compared. */
  lemma OuiKeyIgnoresTail(mac: string, tail: string)
    requires |RemoveChar(mac, ':')| >= 6
    ensures OuiKey(mac + tail) == OuiKey(mac)
  {
    RemoveCharAppend(mac, tail, ':');
    var m := RemoveChar(mac, ':');
    var t := RemoveChar(tail, ':');
    assert Lower(m + t)[..6] == Lower(m)[..6];
  }

  /** `check_mac_database` raises IndexError on a blank database line. */
  datatype DatabaseError = BlankDatabaseLine

  /** A database line whose first token has the operator's OUI. */
  predicate LineHasOui(key: string, line: string)
  {
    var ws := Words(line);
    |ws| > 0 && OuiKey(ws[0]) == key
  }

  /** Line `k` has the OUI and no blank line comes before it. */
  predicate MatchAt(key: string, lines: seq<string>, k: int)
  {
    0 <= k < |lines| && LineHasOui(key, lines[k]) && forall j :: 0 <= j < k ==> !IsBlank(lines[j])
  }

  /** Line `k` is blank and no line with the OUI comes before it. */
  predicate BlankAt(key: string, lines: seq<string>, k: int)
  {
    0 <= k < |lines| && IsBlank(lines[k]) && forall j :: 0 <= j < k ==> !LineHasOui(key, lines[j])
  }

  predicate MatchBeforeBlank(key: string, lines: seq<string>)
  {
    exists k :: 0 <= k < |lines| && MatchAt(key, lines, k)
  }

  predicate BlankBeforeMatch(key: string, lines: seq<string>)
  {
    exists k :: 0 <= k < |lines| && BlankAt(key, lines, k)
  }

  /** The scan of the database lines: it stops at the first matching line,
      and fails at a blank line met before any match. */
  function ScanDatabase(key: string, lines: seq<string>): (r: Result<bool, DatabaseError>)
    ensures r == Ok(true) ==> exists k :: 0 <= k < |lines| && LineHasOui(key, lines[k])
    ensures r == Ok(false) <==> forall k :: 0 <= k < |lines| ==> !IsBlank(lines[k]) && !LineHasOui(key, lines[k])
    ensures r.Err? ==> exists k :: 0 <= k < |lines| && IsBlank(lines[k])
    decreases |lines|
  {
    if |lines| == 0 then Ok(false)
    else
      var rest := ScanDatabase(key, lines[1..]);
      assert forall k :: 1 <= k < |lines| ==> lines[k] == lines[1..][k - 1];
      var ws := Words(lines[0]);
      if |ws| == 0 then Err(BlankDatabaseLine)
      else if OuiKey(ws[0]) == key then Ok(true)
      else rest
  }

  /** What the scan's outcome says about the order of lines: success means a
      match came before any blank line, failure means a blank line came
      before any match. */
  lemma {:induction false} ScanDatabaseOrder(key: string, lines: seq<string>)
    ensures ScanDatabase(key, lines) == Ok(true) ==> MatchBeforeBlank(key, lines)
    ensures ScanDatabase(key, lines).Err? ==> BlankBeforeMatch(key, lines)
    decreases |lines|
  {
    if |lines| > 0 {
      if IsBlank(lines[0]) {
        assert BlankAt(key, lines, 0);
      } else if LineHasOui(key, lines[0]) {
        assert MatchAt(key, lines, 0);
      } else {
        ScanDatabaseOrder(key, lines[1..]);
        ScanDatabaseSkips(key, lines);
        if MatchBeforeBlank(key, lines[1..]) {
          MatchBeforeBlankShift(key, lines);
        }
        if BlankBeforeMatch(key, lines[1..]) {
          BlankBeforeMatchShift(key, lines);
        }
      }
    }
  }

  /** A line that is neither blank nor a match is passed over. */
  lemma ScanDatabaseSkips(key: string, lines: seq<string>)
    requires |lines| > 0 && !IsBlank(lines[0]) && !LineHasOui(key, lines[0])
    ensures ScanDatabase(key, lines) == ScanDatabase(key, lines[1..])
  {
  }

  lemma MatchBeforeBlankShift(key: string, lines: seq<string>)
    requires |lines| > 0 && !IsBlank(lines[0]) && MatchBeforeBlank(key, lines[1..])
    ensures MatchBeforeBlank(key, lines)
  {
    var tail := lines[1..];
    var k :| 0 <= k < |tail| && MatchAt(key, tail, k);
    ShiftedWitness(lines, k);
    assert MatchAt(key, lines, k + 1);
  }

  lemma BlankBeforeMatchShift(key: string, lines: seq<string>)
    requires |lines| > 0 && !LineHasOui(key, lines[0]) && BlankBeforeMatch(key, lines[1..])
    ensures BlankBeforeMatch(key, lines)
  {
    var tail := lines[1..];
    var k :| 0 <= k < |tail| && BlankAt(key, tail, k);
    ShiftedWitness(lines, k);
    assert BlankAt(key, lines, k + 1);
  }

  /** Indices into the tail of a sequence are indices one further into the whole. */
  lemma ShiftedWitness(lines: seq<string>, k: nat)
    requires k < |lines| - 1
    ensures lines[k + 1] == lines[1..][k]
    ensures forall j :: 0 < j <= k ==> lines[j] == lines[1..][j - 1]
  {
  }

  /** A matching line with no blank line before it makes the scan succeed. */
  lemma {:induction false} ScanDatabaseFindsMatch(key: string, lines: seq<string>, k: nat)
    requires k < |lines| && LineHasOui(key, lines[k])
    requires forall j :: 0 <= j < k ==> !IsBlank(lines[j])
    ensures ScanDatabase(key, lines) == Ok(true)
    decreases k
  {
    if k > 0 && !LineHasOui(key, lines[0]) {
      assert lines[k] == lines[1..][k - 1];
      assert forall j :: 0 <= j < k - 1 ==> lines[1..][j] == lines[j + 1];
      ScanDatabaseFindsMatch(key, lines[1..], k - 1);
    }
  }

  /** A blank line with no matching line before it makes the scan fail. */
  lemma {:induction false} ScanDatabaseHitsBlank(key: string, lines: seq<string>, k: nat)
    requires k < |lines| && IsBlank(lines[k])
    requires forall j :: 0 <= j < k ==> !LineHasOui(key, lines[j])
    ensures ScanDatabase(key, lines) == Err(BlankDatabaseLine)
    decreases k
  {
    if k > 0 && !IsBlank(lines[0]) {
      assert lines[k] == lines[1..][k - 1];
      assert forall j :: 0 <= j < k - 1 ==> lines[1..][j] == lines[j + 1];
      ScanDatabaseHitsBlank(key, lines[1..], k - 1);
    }
  }

  /** The scan succeeds exactly when a match comes before any blank line and
      fails exactly when a blank line comes before any match. */
  lemma ScanDatabaseOutcome(key: string, lines: seq<string>)
    ensures ScanDatabase(key, lines) == Ok(true) <==> MatchBeforeBlank(key, lines)
    ensures ScanDatabase(key, lines).Err? <==> BlankBeforeMatch(key, lines)
  {
    ScanDatabaseOrder(key, lines);
    if MatchBeforeBlank(key, lines) {
      MatchBeforeBlankScans(key, lines);
    }
    if BlankBeforeMatch(key, lines) {
      BlankBeforeMatchFails(key, lines);
    }
  }

  lemma MatchBeforeBlankScans(key: string, lines: seq<string>)
    requires MatchBeforeBlank(key, lines)
    ensures ScanDatabase(key, lines) == Ok(true)
  {
    var k :| 0 <= k < |lines| && MatchAt(key, lines, k);
    ScanDatabaseFindsMatch(key, lines, k);
  }

  lemma BlankBeforeMatchFails(key: string, lines: seq<string>)
    requires BlankBeforeMatch(key, lines)
    ensures ScanDatabase(key, lines) == Err(BlankDatabaseLine)
  {
    var k :| 0 <= k < |lines| && BlankAt(key, lines, k);
    ScanDatabaseHitsBlank(key, lines, k);
  }

  /** `check_mac_database(user_mac)` on the database file's text: `True`
      exactly when a line with the operator's OUI comes before any blank
      line, an IndexError exactly when a blank line comes before any such
      line, and `False` otherwise. */
  function CheckMacDatabase(userMac: string, database: string): (r: Result<bool, DatabaseError>)
    ensures r == Ok(true) <==> MatchBeforeBlank(OuiKey(userMac), Lines(database))
    ensures r.Err? <==> BlankBeforeMatch(OuiKey(userMac), Lines(database))
    ensures (forall k :: 0 <= k < |Lines(database)| ==> !IsBlank(Lines(database)[k])) ==>
      r.Ok? && (r.value <==> exists k :: 0 <= k < |Lines(database)| && LineHasOui(OuiKey(userMac), Lines(database)[k]))
  {
    ScanDatabaseOutcome(OuiKey(userMac), Lines(database));
    ScanDatabase(OuiKey(userMac), Lines(database))
  }

  /** Two MACs that share their first three octets get the same answer. */
  lemma SameOuiSameAnswer(mac: string, tail1: string, tail2: string, database: string)
    requires |RemoveChar(mac, ':')| >= 6
    ensures CheckMacDatabase(mac + tail1, database) == CheckMacDatabase(mac + tail2, database)
  {
    OuiKeyIgnoresTail(mac, tail1);
    OuiKeyIgnoresTail(mac, tail2);
  }

  /** Mode 1's test of a forwarding-database line: it contains the
      operator's MAC once colons are dropped and both are lower-cased. */
  predicate LineHasMac(mac: string, line: string)
  {
    Contains(Lower(RemoveChar(line, ':')), Lower(RemoveChar(mac, ':')))
  }

  /** The last line of `lines` containing `mac`, since every later match overwrites an earlier one. */
  function LastMatch(mac: string, lines: seq<string>): (r: Option<nat>)
    ensures r.None? <==> forall j :: 0 <= j < |lines| ==> !LineHasMac(mac, lines[j])
    ensures r.Some? ==> r.value < |lines| && LineHasMac(mac, lines[r.value])
    ensures r.Some? ==> forall j :: r.value < j < |lines| ==> !LineHasMac(mac, lines[j])
    decreases |lines|
  {
    if |lines| == 0 then None
    else if LineHasMac(mac, lines[|lines| - 1]) then Some(|lines| - 1)
    else
      var front := lines[..|lines| - 1];
      assert forall j :: 0 <= j < |front| ==> front[j] == lines[j];
      LastMatch(mac, front)
  }

  /** Mode 1 found a matching line but it holds no token to read a port from
      (`split()[-1]` raises IndexError, reported and retried by the loop). */
  datatype ScrapeError = NoPortToken

  /** Mode 1's port lookup on a switch's forwarding-database text: the last
      whitespace token of the last line holding the MAC. An empty matching
      line counts as no match, since it is falsy. */
  function PortForMac(mac: string, output: string): (r: Result<Option<string>, ScrapeError>)
    ensures LastMatch(mac, Lines(output)).None? ==> r == Ok(None)
    ensures LastMatch(mac, Lines(output)).Some? ==>
      var line := Lines(output)[LastMatch(mac, Lines(output)).value];
      && (line == "" ==> r == Ok(None))
      && (Words(line) != [] ==> r == Ok(Some(Words(line)[|Words(line)| - 1])))
    ensures r.Err? <==> (LastMatch(mac, Lines(output)).Some? &&
      var line := Lines(output)[LastMatch(mac, Lines(output)).value];
      line != "" && IsBlank(line))
    ensures r.Ok? && r.value.Some? ==> IsWord(r.value.value)
  {
    var lines := Lines(output);
    var found := LastMatch(mac, lines);
    if found.None? then Ok(None)
    else
      var line := lines[found.value];
      if line == "" then Ok(None)
      else
        var ws := Words(line);
        if |ws| == 0 then Err(NoPortToken) else Ok(Some(ws[|ws| - 1]))
  }

  /** The port read from the last matching line is the word it ends with,
      whatever whitespace trails it and whatever stands before it. */
  lemma PortIsLastWord(mac: string, output: string, front: string, port: string, trailing: string)
    requires LastMatch(mac, Lines(output)).Some?
    requires Lines(output)[LastMatch(mac, Lines(output)).value] == front + port + trailing
    requires front == "" || IsSpace(front[|front| - 1])
    requires IsWord(port) && IsBlank(trailing)
    ensures PortForMac(mac, output) == Ok(Some(port))
  {
    var line := Lines(output)[LastMatch(mac, Lines(output)).value];
    WordsEndWith(front, port, trailing);
    assert Words(line)[|Words(line)| - 1] == port;
  }

  /** A later matching line overrides an earlier one: when the last line of
      the output holds the MAC, the port comes from it. */
  lemma LastLineDecides(mac: string, lines: seq<string>)
    requires |lines| > 0 && LineHasMac(mac, lines[|lines| - 1])
    ensures LastMatch(mac, lines) == Some(|lines| - 1)
  {
  }

  /** Mode 2's MAC-candidate test on a line's first token. */
  predicate LooksLikeMac(token: string)
  {
    ':' in token || '-' in token || |RemoveChar(token, ' ')| == 12
  }

  /** What one line contributes in mode 2: its first token, when the line
      contains the port text and the token looks like a MAC. */
  function LineCandidate(line: string, port: string): (r: seq<string>)
    ensures |r| <= 1
    ensures r != [] ==> Contains(line, port) && |Words(line)| > 0 && r[0] == Words(line)[0] && LooksLikeMac(r[0])
    ensures Contains(line, port) && |Words(line)| > 0 && LooksLikeMac(Words(line)[0]) ==> r == [Words(line)[0]]
  {
    if Contains(line, port) then
      var parts := Words(line);
      if |parts| > 0 && LooksLikeMac(parts[0]) then [parts[0]] else []
    else []
  }

  /** Mode 2's `port_macs`, in line order. */
  function Candidates(lines: seq<string>, port: string): (r: seq<string>)
    ensures |r| <= |lines|
    ensures forall k :: 0 <= k < |r| ==> IsWord(r[k]) && LooksLikeMac(r[k])
    decreases |lines|
  {
    if |lines| == 0 then [] else LineCandidate(lines[0], port) + Candidates(lines[1..], port)
  }

  /** A line that contains the port and starts with a MAC-looking token contributes it. */
  lemma {:induction false} CandidatesKeepLine(lines: seq<string>, port: string, i: nat)
    requires i < |lines| && Contains(lines[i], port)
    requires |Words(lines[i])| > 0 && LooksLikeMac(Words(lines[i])[0])
    ensures Words(lines[i])[0] in Candidates(lines, port)
    decreases |lines|
  {
    if i > 0 {
      assert lines[i] == lines[1..][i - 1];
      CandidatesKeepLine(lines[1..], port, i - 1);
    }
  }

  /** Every candidate is the first token of a line that contains the port. */
  lemma {:induction false} CandidatesFromLines(lines: seq<string>, port: string, c: string)
    requires c in Candidates(lines, port)
    ensures exists i :: (0 <= i < |lines| && Contains(lines[i], port) &&
      |Words(lines[i])| > 0 && Words(lines[i])[0] == c && LooksLikeMac(c))
    decreases |lines|
  {
    if c in LineCandidate(lines[0], port) {
      assert Contains(lines[0], port) && Words(lines[0])[0] == c;
    } else {
      CandidatesFromLines(lines[1..], port, c);
      var i :| (0 <= i < |lines[1..]| && Contains(lines[1..][i], port) &&
        |Words(lines[1..][i])| > 0 && Words(lines[1..][i])[0] == c && LooksLikeMac(c));
      assert lines[i + 1] == lines[1..][i];
    }
  }

  /** The candidates for a port on a switch's forwarding-database text. */
  function PortCandidates(output: string, port: string): (r: seq<string>)
    ensures forall k :: 0 <= k < |r| ==> IsWord(r[k]) && LooksLikeMac(r[k])
    ensures |r| <= |Lines(output)|
  {
    Candidates(Lines(output), port)
  }

  /** The port test is a substring test: every line considered for a port
      whose text extends `port` (port "1" and port "11") is considered for
      `port` too. */
  lemma {:induction false} LongerPortLinesIncluded(lines: seq<string>, port: string, more: string)
    ensures forall k :: 0 <= k < |Candidates(lines, port + more)| ==> Candidates(lines, port + more)[k] in Candidates(lines, port)
    decreases |lines|
  {
    if |lines| > 0 {
      LongerPortLinesIncluded(lines[1..], port, more);
      if Contains(lines[0], port + more) {
        ContainsPrefix(lines[0], port, more);
      }
    }
  }
}
