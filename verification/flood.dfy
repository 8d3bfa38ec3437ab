/**
 * The admission guard of `FloodProtectedListener` (login/FloodProtectedListener.java):
 * a per-address record of open connections and of the last accept time,
 * consulted for every accepted socket and released when the connection ends.
 */
module Flood {
  import opened JavaText

  /** The flood settings and their defaults (login/Config.java). */
  datatype FloodConfig = FloodConfig(
    protection: bool,      // EnableFloodProtection
    fastLimit: int,        // FastConnectionLimit
    normalTime: int,       // NormalConnectionTime, ms
    fastTime: int,         // FastConnectionTime, ms
    maxPerIp: int)         // MaxConnectionPerIP

  const DEFAULT_CONFIG := FloodConfig(true, 15, 700, 350, 50)

  /** The fields of one `ForeignConnection`, as a value. */
  datatype Counter = Counter(connectionNumber: int, lastConnection: int, isFlooding: bool)

  /** The flood table by host address, as a value. */
  type Table = map<JString, Counter>

  /**
   * The flood test applied to a repeat connection after its count `n` was
   * already raised by one.
   */
  predicate TooFast(cfg: FloodConfig, n: int, lastConnection: int, now: int)
  {
    (n > cfg.fastLimit && now - lastConnection < cfg.normalTime)
    || now - lastConnection < cfg.fastTime
    || n > cfg.maxPerIp
  }

  /** What the accept loop does with one socket: whether it is handed on, and the new table. */
  datatype Admission = Admission(added: bool, table: Table)

  function Admit(cfg: FloodConfig, t: Table, ip: JString, now: int): Admission
  {
    if !cfg.protection then Admission(true, t)
    else if ip in t then
      var n := t[ip].connectionNumber + 1;
      if TooFast(cfg, n, t[ip].lastConnection, now) then Admission(false, t[ip := Counter(n - 1, now, true)])
      else Admission(true, t[ip := Counter(n, now, false)])
    else Admission(true, t[ip := Counter(1, now, false)])
  }

  /** `removeFloodProtection(ip)` on the table. */
  function Release(cfg: FloodConfig, t: Table, ip: JString): Table
  {
    if !cfg.protection || ip !in t then t
    else if t[ip].connectionNumber - 1 == 0 then t - {ip}
    else t[ip := t[ip].(connectionNumber := t[ip].connectionNumber - 1)]
  }

  /** Every recorded address has at least one connection. */
  predicate Counted(t: Table)
  {
    forall ip :: ip in t ==> t[ip].connectionNumber >= 1
  }

  /**
   * A socket is refused exactly when protection is on, its address is
   * already recorded and the flood test holds; then the entry keeps its
   * count, is marked flooding and takes `now` as its last connection.
   */
  lemma AdmitRefuses(cfg: FloodConfig, t: Table, ip: JString, now: int)
    ensures var a := Admit(cfg, t, ip, now);
      && (!a.added <==> cfg.protection && ip in t
                        && TooFast(cfg, t[ip].connectionNumber + 1, t[ip].lastConnection, now))
      && (!a.added ==> a.table == t[ip := Counter(t[ip].connectionNumber, now, true)])
  {
  }

  /**
   * An accepted socket leaves its address recorded with `now`, not
   * flooding, one more connection (1 for a first one) and, for a repeat,
   * at most `maxPerIp` connections. Other addresses are untouched.
   */
  lemma AdmitAccepts(cfg: FloodConfig, t: Table, ip: JString, now: int)
    requires cfg.protection
    ensures var a := Admit(cfg, t, ip, now);
      a.added ==>
        && ip in a.table && a.table[ip].lastConnection == now && !a.table[ip].isFlooding
        && a.table[ip].connectionNumber == (if ip in t then t[ip].connectionNumber + 1 else 1)
        && (ip in t ==> a.table[ip].connectionNumber <= cfg.maxPerIp)
    ensures forall other :: other != ip ==>
      (other in Admit(cfg, t, ip, now).table <==> other in t)
      && (other in t ==> Admit(cfg, t, ip, now).table[other] == t[other])
  {
  }

  /** A second connection inside `fastTime` of the last one is always refused. */
  lemma BurstRefused(cfg: FloodConfig, t: Table, ip: JString, now: int)
    requires cfg.protection && ip in t && now - t[ip].lastConnection < cfg.fastTime
    ensures !Admit(cfg, t, ip, now).added
  {
  }

  /** Admission and release keep every recorded address counted. */
  lemma CountedKept(cfg: FloodConfig, t: Table, ip: JString, now: int)
    requires Counted(t)
    ensures Counted(Admit(cfg, t, ip, now).table)
    ensures Counted(Release(cfg, t, ip))
  {
  }

  /**
   * Releasing an accepted connection restores the counts: a first
   * connection's entry disappears again, and a repeat's count goes back.
   */
  lemma AdmitThenRelease(cfg: FloodConfig, t: Table, ip: JString, now: int)
    requires Counted(t) && Admit(cfg, t, ip, now).added
    ensures var r := Release(cfg, Admit(cfg, t, ip, now).table, ip);
      r.Keys == t.Keys
      && forall a :: a in t ==> r[a].connectionNumber == t[a].connectionNumber
  {
    var r := Release(cfg, Admit(cfg, t, ip, now).table, ip);
    if cfg.protection && ip !in t {
      assert r == t;
    }
  }

  /** One `ForeignConnection`. */
  class ForeignConnection {
    var connectionNumber: int
    var lastConnection: int
    var isFlooding: bool

    constructor (time: int)
      ensures connectionNumber == 1 && lastConnection == time && !isFlooding
    {
      lastConnection := time;
      connectionNumber := 1;
      isFlooding := false;
    }
  }

  /**
   * The listener: its settings, the flood table, and the addresses of the
   * sockets handed to `addClient`, in order.
   */
  class FloodProtectedListener {
    const config: FloodConfig
    var floodProtection: map<JString, ForeignConnection>
    var clients: seq<JString>

    /** Each address has its own `ForeignConnection`. */
    ghost predicate Valid()
      reads this
    {
      forall a, b :: a in floodProtection && b in floodProtection && a != b ==>
        floodProtection[a] != floodProtection[b]
    }

    /** The flood table as a value. */
    function Counters(): Table
      reads this, floodProtection.Values
    {
      map ip | ip in floodProtection ::
        Counter(floodProtection[ip].connectionNumber, floodProtection[ip].lastConnection,
                floodProtection[ip].isFlooding)
    }

    constructor (config: FloodConfig)
      ensures Valid() && this.config == config && Counters() == map[] && clients == []
    {
      this.config := config;
      floodProtection := map[];
      clients := [];
    }

    /** One pass of the accept loop for a socket from `ip` at time `now`. */
    method Accept(ip: JString, now: int)
      requires Valid()
      modifies this, floodProtection.Values
      ensures Valid()
      ensures var a := Admit(config, old(Counters()), ip, now);
        Counters() == a.table && clients == old(clients) + (if a.added then [ip] else [])
    {
      ghost var t := Counters();
      if config.protection {
        if ip in floodProtection {
          var added := AcceptRepeat(ip, now);
          if !added {
            return;
          }
        } else {
          var fConnection := new ForeignConnection(now);
          floodProtection := floodProtection[ip := fConnection];
          assert Counters() == t[ip := Counter(1, now, false)];
        }
      }
      clients := clients + [ip];
    }

    /** The accept loop's branch for an address already in the table. */
    method AcceptRepeat(ip: JString, now: int) returns (added: bool)
      requires Valid() && config.protection && ip in floodProtection
      modifies floodProtection[ip]
      ensures var a := Admit(config, old(Counters()), ip, now);
        Counters() == a.table && added == a.added
    {
      var fConnection := floodProtection[ip];
      var n := fConnection.connectionNumber + 1;
      if TooFast(config, n, fConnection.lastConnection, now) {
        Store(ip, Counter(n - 1, now, true));
        return false;
      }
      Store(ip, Counter(n, now, false));
      return true;
    }

    /** Sets the fields of the `ForeignConnection` of `ip`. */
    method Store(ip: JString, c: Counter)
      requires Valid() && ip in floodProtection
      modifies floodProtection[ip]
      ensures Counters() == old(Counters())[ip := c]
    {
      var fConnection := floodProtection[ip];
      fConnection.connectionNumber := c.connectionNumber;
      fConnection.lastConnection := c.lastConnection;
      fConnection.isFlooding := c.isFlooding;
    }

    /** `removeFloodProtection(ip)`: one connection from `ip` has ended. */
    method RemoveFloodProtection(ip: JString)
      requires Valid()
      modifies this, floodProtection.Values
      ensures Valid() && clients == old(clients)
      ensures Counters() == Release(config, old(Counters()), ip)
    {
      ghost var t := Counters();
      if !config.protection {
        return;
      }
      if ip in floodProtection {
        var fConnection := floodProtection[ip];
        fConnection.connectionNumber := fConnection.connectionNumber - 1;
        if fConnection.connectionNumber == 0 {
          floodProtection := floodProtection - {ip};
          assert Counters() == t - {ip};
        } else {
          assert Counters() == t[ip := t[ip].(connectionNumber := t[ip].connectionNumber - 1)];
        }
      }
    }
  }
}
