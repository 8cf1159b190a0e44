/** The SSH connection pool shared by the tools: `ConnectionManager` of
    main.py, its copies `get_ssh_connection` / `close_all_connections` in
    FDBSearching/main.py, and `LocalConnectionManager` of
    BulkCommands/main.py. Sessions are opaque; whether the liveness probe,
    a connect or a close succeeds is an input. */
module ConnectionPool {
  import opened Common
  import opened Text

  /** An open SSH session; the number only tells sessions apart. */
  datatype Session = Session(id: nat)

  /** The pool: the pooled hosts in insertion order (the order a Python
      dict lists its keys in) and the session of each host. */
  datatype Pool = Pool(hosts: seq<string>, sessions: map<string, Session>)

  predicate NoDuplicates(xs: seq<string>)
  {
    forall i, j :: 0 <= i < j < |xs| ==> xs[i] != xs[j]
  }

  /** At most one session per host, and the order lists exactly the pooled hosts once each. */
  predicate Valid(p: Pool)
  {
    NoDuplicates(p.hosts)
    && (forall h :: h in p.sessions ==> h in p.hosts)
    && (forall h :: h in p.hosts ==> h in p.sessions)
  }

  /** The pool a manager starts with, and what closing everything leaves. */
  const Empty: Pool := Pool([], map[])

  /** `hosts` without `host`, the others kept in order. */
  function RemoveHost(hosts: seq<string>, host: string): (r: seq<string>)
    ensures forall h :: h in r <==> h in hosts && h != host
    ensures NoDuplicates(hosts) ==> NoDuplicates(r)
    ensures host !in hosts ==> r == hosts
    decreases |hosts|
  {
    if |hosts| == 0 then []
    else
      var rest := RemoveHost(hosts[1..], host);
      assert forall h :: h in hosts <==> h == hosts[0] || h in hosts[1..];
      assert NoDuplicates(hosts) ==> NoDuplicates(hosts[1..]) && hosts[0] !in hosts[1..] by {
        if NoDuplicates(hosts) {
          forall i, j | 0 <= i < j < |hosts[1..]| ensures hosts[1..][i] != hosts[1..][j] {
            assert hosts[1..][i] == hosts[i + 1] && hosts[1..][j] == hosts[j + 1];
          }
          forall k | 0 <= k < |hosts[1..]| ensures hosts[1..][k] != hosts[0] {
            assert hosts[1..][k] == hosts[k + 1];
          }
        }
      }
      assert host !in hosts ==> hosts == [hosts[0]] + hosts[1..];
      if hosts[0] == host then rest else [hosts[0]] + rest
  }

  /** `del connections[host]` (a no-op here when the host is absent). */
  function Evict(p: Pool, host: string): (r: Pool)
    requires Valid(p)
    ensures Valid(r)
    ensures r.sessions == p.sessions - {host}
    ensures r.hosts == RemoveHost(p.hosts, host)
  {
    Pool(RemoveHost(p.hosts, host), p.sessions - {host})
  }

  /** `connections[host] = s` for a host not yet pooled: it is listed last. */
  function Insert(p: Pool, host: string, s: Session): (r: Pool)
    requires Valid(p) && host !in p.sessions
    ensures Valid(r)
    ensures r.hosts == p.hosts + [host]
    ensures r.sessions == p.sessions[host := s]
  {
    Pool(p.hosts + [host], p.sessions[host := s])
  }

  datatype ConnectError = ConnectFailed(host: string)

  /** `ConnectionManager.get_connection` (main.py). A pooled session whose
      probe (`show system`) succeeds is returned as it is. Otherwise a pooled
      session is closed, whatever the close does, and dropped; then a new
      connection is opened, and pooled only if the connect succeeds.
      `probeOk` is the probe's outcome (used only for a pooled host);
      `connect` is the session the connect opens, or `None` when it raises. */
  function GetConnection(p: Pool, host: string, probeOk: bool, connect: Option<Session>): (r: (Pool, Result<Session, ConnectError>))
    requires Valid(p)
    ensures Valid(r.0)
    ensures host in p.sessions && probeOk ==> r == (p, Ok(p.sessions[host]))
    ensures !(host in p.sessions && probeOk) ==> (r.1.Ok? <==> connect.Some?)
    ensures !(host in p.sessions && probeOk) && connect.Some? ==>
      r.1 == Ok(connect.value) && r.0.hosts == RemoveHost(p.hosts, host) + [host]
    ensures r.1.Ok? ==> host in r.0.sessions && r.0.sessions[host] == r.1.value
    ensures r.1.Err? ==> host !in r.0.sessions
    ensures forall h :: h != host ==> (h in r.0.sessions <==> h in p.sessions)
    ensures forall h :: h != host && h in p.sessions ==> r.0.sessions[h] == p.sessions[h]
  {
    if host in p.sessions && probeOk then (p, Ok(p.sessions[host]))
    else
      var q := Evict(p, host);
      match connect
      case Some(s) => (Insert(q, host, s), Ok(s))
      case None => (q, Err(ConnectFailed(host)))
  }

  /** Two acquisitions in a row with a live session the second time return
      the same session and leave the pool as the first one left it. */
  lemma SecondAcquireReuses(p: Pool, host: string, probe1: bool, connect1: Option<Session>, connect2: Option<Session>)
    requires Valid(p)
    requires GetConnection(p, host, probe1, connect1).1.Ok?
    ensures var (q, first) := GetConnection(p, host, probe1, connect1);
      GetConnection(q, host, true, connect2) == (q, first)
  {
  }

  /** After closing everything, an acquisition always opens a new connection. */
  lemma AcquireAfterCloseAll(host: string, probeOk: bool, connect: Option<Session>)
    ensures GetConnection(Empty, host, probeOk, connect) ==
      match connect
      case Some(s) => (Pool([host], map[host := s]), Ok(s))
      case None => (Empty, Err(ConnectFailed(host)))
  {
    assert Empty.sessions - {host} == Empty.sessions;
    assert Evict(Empty, host) == Empty;
    if connect.Some? {
      assert Empty.hosts + [host] == [host];
      assert Insert(Empty, host, connect.value) == Pool([host], map[host := connect.value]);
    }
  }

  /** `list_connections`: every pooled host exactly once, in insertion order. */
  function ListConnections(p: Pool): (r: seq<string>)
    requires Valid(p)
    ensures NoDuplicates(r)
    ensures forall h :: h in r <==> h in p.sessions
    ensures |r| == |p.sessions|
  {
    assert p.sessions.Keys == set h | h in p.hosts;
    DistinctCard(p.hosts);
    p.hosts
  }

  /** A list without duplicates has as many distinct elements as entries. */
  lemma {:induction false} DistinctCard(xs: seq<string>)
    requires NoDuplicates(xs)
    ensures |set h | h in xs| == |xs|
    decreases |xs|
  {
    if |xs| > 0 {
      var tail := xs[1..];
      assert NoDuplicates(tail) by {
        forall i, j | 0 <= i < j < |tail| ensures tail[i] != tail[j] {
          assert tail[i] == xs[i + 1] && tail[j] == xs[j + 1];
        }
      }
      DistinctCard(tail);
      assert xs[0] !in tail by {
        forall k | 0 <= k < |tail| ensures tail[k] != xs[0] {
          assert tail[k] == xs[k + 1];
        }
      }
      assert (set h | h in xs) == (set h | h in tail) + {xs[0]};
    }
  }

  /** `close_all`: the close of every pooled session is attempted in pool
      order and the pool is emptied whatever the outcomes. `closeOk(h)` is
      whether closing `h`'s session returns normally; `reported` lists the
      hosts for which a closed connection is reported. */
  method CloseAll(p: Pool, closeOk: string -> bool) returns (q: Pool, reported: seq<string>)
    requires Valid(p)
    ensures q == Empty
    ensures forall h :: h in reported <==> h in p.sessions && closeOk(h)
  {
    reported := [];
    var i := 0;
    while i < |p.hosts|
      invariant 0 <= i <= |p.hosts|
      invariant forall h :: h in reported <==> h in p.hosts[..i] && closeOk(h)
    {
      assert p.hosts[..i + 1] == p.hosts[..i] + [p.hosts[i]];
      if closeOk(p.hosts[i]) {
        reported := reported + [p.hosts[i]];
      }
      i := i + 1;
    }
    assert p.hosts[..i] == p.hosts;
    q := Empty;
  }

  /** `close_connection`: an absent host is a no-op; a pooled host is
      dropped only when its close returns normally, and stays pooled when
      the close raises. */
  function CloseConnection(p: Pool, host: string, closeOk: bool): (r: Pool)
    requires Valid(p)
    ensures Valid(r)
    ensures host !in p.sessions || !closeOk ==> r == p
    ensures host in p.sessions && closeOk ==> r.sessions == p.sessions - {host} && r.hosts == RemoveHost(p.hosts, host)
  {
    if host in p.sessions && closeOk then Evict(p, host) else p
  }

  /** `MainMenu.close_connection`: the operator's answer, read as a 1-based
      number into the listed connections, picks the host to close; nothing
      happens when no connection is open, the answer is not a number, or the
      number is out of range. */
  function MenuCloseConnection(p: Pool, answer: string, closeOk: bool): (r: Pool)
    requires Valid(p)
    ensures Valid(r)
    ensures ParseInt(answer).None? ==> r == p
    ensures ParseInt(answer).Some? && !(1 <= ParseInt(answer).value <= |p.hosts|) ==> r == p
    ensures ParseInt(answer).Some? && 1 <= ParseInt(answer).value <= |p.hosts| && closeOk ==>
      r.sessions == p.sessions - {p.hosts[ParseInt(answer).value - 1]} && |r.sessions| == |p.sessions| - 1
    ensures !closeOk ==> r == p
  {
    var choice := ParseInt(answer);
    if choice.None? then p else CloseByNumber(p, choice.value, closeOk)
  }

  /** The menu's choice once read as a number `n`: the `n`-th listed host. */
  function CloseByNumber(p: Pool, n: int, closeOk: bool): (r: Pool)
    requires Valid(p)
    ensures Valid(r)
    ensures !(1 <= n <= |p.hosts|) || !closeOk ==> r == p
    ensures 1 <= n <= |p.hosts| && closeOk ==>
      r.sessions == p.sessions - {p.hosts[n - 1]} && |r.sessions| == |p.sessions| - 1
  {
    var active := ListConnections(p);
    if 1 <= n <= |active| then CloseConnection(p, active[n - 1], closeOk) else p
  }

  /** `LocalConnectionManager.get_connection` (BulkCommands/main.py): a
      pooled session is returned without any probe; otherwise a new
      connection is opened and pooled only if the connect succeeds. */
  function LocalGetConnection(p: Pool, host: string, connect: Option<Session>): (r: (Pool, Result<Session, ConnectError>))
    requires Valid(p)
    ensures Valid(r.0)
    ensures host in p.sessions ==> r == (p, Ok(p.sessions[host]))
    ensures host !in p.sessions ==> r == GetConnection(p, host, false, connect)
  {
    if host in p.sessions then (p, Ok(p.sessions[host]))
    else
      assert p.sessions - {host} == p.sessions;
      assert Evict(p, host) == p;
      match connect
      case Some(s) => (Insert(p, host, s), Ok(s))
      case None => (p, Err(ConnectFailed(host)))
  }

  /** Why `get_ssh_connection` (FDBSearching/main.py) did not return a session. */
  datatype FdbConnectError =
    | CredentialsUnreadable  // credentials.txt could not be opened or read
    | CredentialsMalformed   // the stripped text is not exactly two lines
    | FdbConnectFailed       // the connect raised

  /** `ssh_username, ssh_password = file.read().strip().splitlines()`: the
      unpacking succeeds only for exactly two lines, taken without stripping
      each line and without any emptiness check. */
  function UnpackCredentials(content: string): (r: Option<(string, string)>)
    ensures r.Some? <==> |Lines(Trim(content))| == 2
    ensures r.Some? ==> Lines(Trim(content)) == [r.value.0, r.value.1]
  {
    var lines := Lines(Trim(content));
    if |lines| == 2 then Some((lines[0], lines[1])) else None
  }

  /** `get_ssh_connection` of FDBSearching/main.py: the same probe, evict
      and reconnect discipline as `GetConnection`, except that the
      credentials file is read (after the eviction) before connecting.
      `credentials` is the file's text, or `None` when it cannot be read. */
  function FdbGetConnection(p: Pool, host: string, probeOk: bool, credentials: Option<string>, connect: Option<Session>): (r: (Pool, Result<Session, FdbConnectError>))
    requires Valid(p)
    ensures Valid(r.0)
    ensures host in p.sessions && probeOk ==> r == (p, Ok(p.sessions[host]))
    ensures !(host in p.sessions && probeOk) && credentials.None? ==> r.1 == Err(CredentialsUnreadable)
    ensures !(host in p.sessions && probeOk) && credentials.Some? && UnpackCredentials(credentials.value).None? ==>
      r.1 == Err(CredentialsMalformed)
    ensures r.1.Ok? ==> host in r.0.sessions && r.0.sessions[host] == r.1.value
    ensures r.1.Err? ==> host !in r.0.sessions
    ensures forall h :: h != host ==> (h in r.0.sessions <==> h in p.sessions)
    ensures forall h :: h != host && h in p.sessions ==> r.0.sessions[h] == p.sessions[h]
  {
    if host in p.sessions && probeOk then (p, Ok(p.sessions[host]))
    else
      var q := Evict(p, host);
      match credentials
      case None => (q, Err(CredentialsUnreadable))
      case Some(text) =>
        if UnpackCredentials(text).None? then (q, Err(CredentialsMalformed))
        else match connect
          case Some(s) => (Insert(q, host, s), Ok(s))
          case None => (q, Err(FdbConnectFailed))
  }

  /** With a readable two-line credentials file, the FDB tool's pool
      evolves exactly like the main manager's. */
  lemma FdbPoolAgreesWithManager(p: Pool, host: string, probeOk: bool, credentials: string, connect: Option<Session>)
    requires Valid(p)
    requires |Lines(Trim(credentials))| == 2
    ensures var (q1, r1) := FdbGetConnection(p, host, probeOk, Some(credentials), connect);
      var (q2, r2) := GetConnection(p, host, probeOk, connect);
      q1 == q2 && (r1.Ok? <==> r2.Ok?) && (r1.Ok? ==> r1.value == r2.value)
  {
  }
}
