/**
 * The game-server registry: the table of registered servers
 * (login/GameServerTable.java), the record kept for each server
 * (`GameServerInfo`), and the bookkeeping of one game-server connection
 * (login/GameServerThread.java): its state, its cipher, the accounts online
 * on it, the frames it writes, and its teardown.
 */
module Registry {
  import opened Wire
  import opened JavaText
  import opened Crypt
  import opened LoginCrypto
  import opened LoginServerPackets
  import opened Flood

  /** Server status codes (gameserverpackets/ServerStatus.java). */
  const STATUS_AUTO := 0x00
  const STATUS_GOOD := 0x01
  const STATUS_NORMAL := 0x02
  const STATUS_FULL := 0x03
  const STATUS_DOWN := 0x04
  const STATUS_GM_ONLY := 0x05

  /** The three states of a game-server connection (network/L2JGameServerPacketHandler.java). */
  datatype GameServerState = Connected | BfConnected | Authed

  /** One advertised address: the subnet it is for, and the host given to clients in it. */
  datatype GameServerAddress = GameServerAddress(subnet: JString, serverAddress: JString)

  /** `getStatusName`. */
  function StatusName(status: int): JString
  {
    match status
    case 0 => Lit("Auto")
    case 1 => Lit("Good")
    case 2 => Lit("Normal")
    case 3 => Lit("Full")
    case 4 => Lit("Down")
    case 5 => Lit("GM Only")
    case _ => Lit("Unknown")
  }

  /** The six known codes have six different names, none of them "Unknown". */
  lemma StatusNamesDistinct(s: int, t: int)
    requires 0 <= s <= 5 && 0 <= t <= 5 && s != t
    ensures StatusName(s) != StatusName(t)
    ensures StatusName(s) != Lit("Unknown")
  {
    var names := [Lit("Auto"), Lit("Good"), Lit("Normal"), Lit("Full"), Lit("Down"), Lit("GM Only"), Lit("Unknown")];
    assert StatusName(s) == names[s] && StatusName(t) == names[t];
    assert names[s][0] != names[t][0] || |names[s]| != |names[t]|;
    assert names[s][0] != names[6][0];
  }

  /**
   * The position of the first address whose subnet contains `addr`, or -1.
   * `inSubnet` stands for `IPSubnet.equals`.
   */
  function MatchIndex(addrs: seq<GameServerAddress>, inSubnet: (JString, JString) -> bool, addr: JString): (i: int)
    ensures -1 <= i < |addrs|
    ensures i >= 0 ==> inSubnet(addrs[i].subnet, addr)
    ensures forall j :: 0 <= j < |addrs| && (i < 0 || j < i) ==> !inSubnet(addrs[j].subnet, addr)
  {
    if addrs == [] then -1
    else if inSubnet(addrs[0].subnet, addr) then 0
    else
      var k := MatchIndex(addrs[1..], inSubnet, addr);
      if k < 0 then -1 else k + 1
  }

  /** `getServerAddress(addr)`: the host of the first matching entry, or null. */
  function ServerAddress(addrs: seq<GameServerAddress>, inSubnet: (JString, JString) -> bool, addr: JString): Option<JString>
  {
    var i := MatchIndex(addrs, inSubnet, addr);
    if i < 0 then None else Some(addrs[i].serverAddress)
  }

  /**
   * The addresses `setGameHosts` installs: the pairs (hosts[i], hosts[i+1])
   * for even i whose subnet is accepted. A trailing odd entry fails with an
   * index error that the loop catches, and so does a subnet the
   * `IPSubnet` constructor rejects (`subnetOk` false).
   */
  function HostPairs(hosts: seq<JString>, subnetOk: JString -> bool): seq<GameServerAddress>
    decreases |hosts|
  {
    if |hosts| < 2 then []
    else (if subnetOk(hosts[0]) then [GameServerAddress(hosts[0], hosts[1])] else []) + HostPairs(hosts[2..], subnetOk)
  }

  /** With every subnet accepted, entry j is exactly the pair (hosts[2j], hosts[2j+1]). */
  lemma {:induction false} HostPairsAll(hosts: seq<JString>, subnetOk: JString -> bool)
    requires forall i :: 0 <= i < |hosts| ==> subnetOk(hosts[i])
    ensures |HostPairs(hosts, subnetOk)| == |hosts| / 2
    ensures forall j :: 0 <= j < |hosts| / 2 ==>
      HostPairs(hosts, subnetOk)[j] == GameServerAddress(hosts[2 * j], hosts[2 * j + 1])
    decreases |hosts|
  {
    if |hosts| >= 2 {
      var rest := hosts[2..];
      forall i | 0 <= i < |rest| ensures subnetOk(rest[i]) {
        assert rest[i] == hosts[i + 2];
      }
      HostPairsAll(rest, subnetOk);
      assert HostPairs(hosts, subnetOk) == [GameServerAddress(hosts[0], hosts[1])] + HostPairs(rest, subnetOk);
      forall j | 1 <= j < |hosts| / 2
        ensures HostPairs(hosts, subnetOk)[j] == GameServerAddress(hosts[2 * j], hosts[2 * j + 1])
      {
        assert HostPairs(hosts, subnetOk)[j] == HostPairs(rest, subnetOk)[j - 1];
        assert rest[2 * (j - 1)] == hosts[2 * j];
      }
    }
  }

  /** Every installed address has an accepted subnet, and there is at most one per pair. */
  lemma {:induction false} HostPairsBound(hosts: seq<JString>, subnetOk: JString -> bool)
    ensures |HostPairs(hosts, subnetOk)| <= |hosts| / 2
    ensures forall a :: a in HostPairs(hosts, subnetOk) ==> subnetOk(a.subnet) && a.subnet in hosts
    decreases |hosts|
  {
    if |hosts| >= 2 {
      HostPairsBound(hosts[2..], subnetOk);
      forall a | a in HostPairs(hosts[2..], subnetOk) ensures a.subnet in hosts {
        assert a.subnet in hosts[2..];
      }
    }
  }

  /** The bytes of the initial connection key "_;v.]05-31!|+-%xT!^[$\00" (22 bytes, the last one NUL). */
  const INITIAL_BLOWFISH_KEY: seq<u8> := [
    0x5F, 0x3B, 0x76, 0x2E, 0x5D, 0x30, 0x35, 0x2D, 0x33, 0x31, 0x21,
    0x7C, 0x2B, 0x2D, 0x25, 0x78, 0x54, 0x21, 0x5E, 0x5B, 0x24, 0x00
  ]

  /**
   * The frame `sendPacket` writes for a packet body: two length bytes
   * (body length + 2, low byte first), then the body with its checksum
   * appended, enciphered with the connection's key.
   */
  function Framed(c: BlockCipher, key: seq<u8>, content: seq<u8>): (f: seq<u8>)
    requires |content| % 8 == 0 && |content| >= 8
    ensures |f| == |content| + 2
  {
    LE16(|content| + 2) + DynamicFrame(c, key, content, 0, |content|)
  }

  /**
   * The layout of a frame: the length word holds the frame length, and the
   * rest is the checksummed, enciphered body, which the game server
   * deciphers back with its checksum intact (`LoginCrypto.DynamicRoundTrip`).
   */
  lemma FramedLayout(c: BlockCipher, key: seq<u8>, content: seq<u8>)
    requires |content| % 8 == 0 && |content| >= 8 && |content| + 2 < TWO16
    ensures var f := Framed(c, key, content);
      && U16At(f, 0) == |f|
      && f[2..] == DynamicFrame(c, key, content, 0, |content|)
  {
    var n := |content|;
    var f := Framed(c, key, content);
    U16RoundTrip(n + 2);
    assert f[..2] == LE16(n + 2);
    assert f[0] == LE16(n + 2)[0] && f[1] == LE16(n + 2)[1];
    assert U16At(f, 0) == U16At(LE16(n + 2), 0);
    DivUnique(n + 2, TWO16, 0, n + 2);
  }

  /** One `GameServerInfo`. */
  class GameServerInfo {
    var id: int
    const hexId: seq<u8>
    var isAuthed: bool
    var gst: GameServerThread?
    var status: int
    var addrs: seq<GameServerAddress>
    var port: int
    const isPvp: bool
    var serverType: int
    var ageLimit: int
    var isShowingBrackets: bool
    var maxPlayers: int

    /** A new entry is down and not authed, with no addresses; `isPvp` is always true. */
    constructor (id: int, hexId: seq<u8>, gst: GameServerThread?)
      ensures this.id == id && this.hexId == hexId && this.gst == gst
      ensures status == STATUS_DOWN && !isAuthed && addrs == [] && port == 0 && isPvp
      ensures serverType == 0 && ageLimit == 0 && !isShowingBrackets && maxPlayers == 0
    {
      this.id := id;
      this.hexId := hexId;
      this.gst := gst;
      status := STATUS_DOWN;
      isAuthed := false;
      addrs := [];
      port := 0;
      isPvp := true;
      serverType := 0;
      ageLimit := 0;
      isShowingBrackets := false;
      maxPlayers := 0;
    }

    /** `setDown`: not authed, port 0, no connection, status down; everything else is kept. */
    method SetDown()
      modifies this
      ensures !isAuthed && port == 0 && gst == null && status == STATUS_DOWN
      ensures id == old(id) && addrs == old(addrs) && serverType == old(serverType)
      ensures ageLimit == old(ageLimit) && isShowingBrackets == old(isShowingBrackets) && maxPlayers == old(maxPlayers)
    {
      isAuthed := false;
      port := 0;
      gst := null;
      status := STATUS_DOWN;
    }

    /** `getCurrentPlayerCount`: the online accounts of the attached connection, 0 without one. */
    function CurrentPlayerCount(): (n: int)
      reads this, gst
      ensures gst == null ==> n == 0
      ensures gst != null ==> n == |gst.accountsOnGameServer|
    {
      if gst == null then 0 else gst.PlayerCount()
    }

    /** `addServerAddress`. */
    method AddServerAddress(subnet: JString, addr: JString)
      modifies this`addrs
      ensures addrs == old(addrs) + [GameServerAddress(subnet, addr)]
    {
      addrs := addrs + [GameServerAddress(subnet, addr)];
    }

    /** `clearServerAddresses`. */
    method ClearServerAddresses()
      modifies this`addrs
      ensures addrs == []
    {
      addrs := [];
    }
  }

  /**
   * One game-server connection. `sent` holds the frames written to the
   * socket, in order; `closed` records that the socket was closed.
   */
  class GameServerThread {
    const connectionIp: JString
    var blowfish: NewCrypt
    var loginConnectionState: GameServerState
    var gsi: GameServerInfo?
    var accountsOnGameServer: set<JString>
    var sent: seq<seq<u8>>
    var kicked: seq<JString>
    var charsRequested: seq<JString>
    var closed: bool

    /** A new connection: state CONNECTED, the initial key, no entry, nobody online. */
    constructor (connectionIp: JString, cipher: BlockCipher)
      ensures this.connectionIp == connectionIp && loginConnectionState == Connected
      ensures blowfish.cipher == cipher && blowfish.key == INITIAL_BLOWFISH_KEY
      ensures gsi == null && accountsOnGameServer == {} && sent == [] && kicked == [] && charsRequested == [] && !closed
    {
      this.connectionIp := connectionIp;
      blowfish := new NewCrypt(cipher, INITIAL_BLOWFISH_KEY);
      loginConnectionState := Connected;
      gsi := null;
      accountsOnGameServer := {};
      sent := [];
      kicked := [];
      charsRequested := [];
      closed := false;
    }

    /** `hasAccountOnGameServer`. */
    predicate HasAccountOnGameServer(account: JString)
      reads this
    {
      account in accountsOnGameServer
    }

    /** `getPlayerCount`. */
    function PlayerCount(): int
      reads this
    {
      |accountsOnGameServer|
    }

    /** `addAccountOnGameServer`. */
    method AddAccountOnGameServer(account: JString)
      modifies this`accountsOnGameServer
      ensures accountsOnGameServer == old(accountsOnGameServer) + {account}
      ensures HasAccountOnGameServer(account)
      ensures PlayerCount() == old(PlayerCount()) + (if account in old(accountsOnGameServer) then 0 else 1)
    {
      if account in accountsOnGameServer {
        assert accountsOnGameServer + {account} == accountsOnGameServer;
      } else {
        assert |accountsOnGameServer + {account}| == |accountsOnGameServer| + 1;
      }
      accountsOnGameServer := accountsOnGameServer + {account};
    }

    /** `removeAccountOnGameServer`: a no-op for an account that is not online. */
    method RemoveAccountOnGameServer(account: JString)
      modifies this`accountsOnGameServer
      ensures accountsOnGameServer == old(accountsOnGameServer) - {account}
      ensures !HasAccountOnGameServer(account)
      ensures PlayerCount() == old(PlayerCount()) - (if account in old(accountsOnGameServer) then 1 else 0)
    {
      if account in accountsOnGameServer {
        assert |accountsOnGameServer - {account}| == |accountsOnGameServer| - 1;
      } else {
        assert accountsOnGameServer - {account} == accountsOnGameServer;
      }
      accountsOnGameServer := accountsOnGameServer - {account};
    }

    /** `isAuthed`: false without an entry. */
    predicate IsAuthed()
      reads this, gsi
    {
      gsi != null && gsi.isAuthed
    }

    /** `getServerId`: -1 without an entry. */
    function ServerId(): (id: int)
      reads this, gsi
      ensures gsi == null ==> id == -1
      ensures gsi != null ==> id == gsi.id
    {
      if gsi == null then -1 else gsi.id
    }

    /** `SetBlowFish`. */
    method SetBlowFish(blowfish: NewCrypt)
      modifies this`blowfish
      ensures this.blowfish == blowfish
    {
      this.blowfish := blowfish;
    }

    /** `setLoginConnectionState`. */
    method SetLoginConnectionState(state: GameServerState)
      modifies this`loginConnectionState
      ensures loginConnectionState == state
    {
      loginConnectionState := state;
    }

    /**
     * `sendPacket`: the body gets its checksum, is enciphered with the
     * current key in place, and goes out behind its length word.
     */
    method SendPacket(content: seq<u8>)
      requires |content| % 8 == 0 && |content| >= 8
      modifies this`sent
      ensures sent == old(sent) + [Framed(blowfish.cipher, blowfish.key, content)]
    {
      var data := new u8[|content|](i requires 0 <= i < |content| => content[i]);
      assert data[..] == content;
      SealDynamic(blowfish, data, 0, data.Length);
      var len := data.Length + 2;
      sent := sent + [LE16(len) + data[..]];
    }

    /** `forceClose(reason)`: a LoginServerFail frame with the reason, then the socket is closed. */
    method ForceClose(reason: int)
      modifies this`sent, this`closed
      ensures closed
      ensures sent == old(sent) + [Framed(blowfish.cipher, blowfish.key, FailContent(reason))]
    {
      var content := LoginServerFail(reason);
      SendPacket(content);
      closed := true;
    }

    /**
     * `kickPlayer(account)`: asks the game server to drop the account. The
     * frame's layout (`KickPlayer`) is not part of this model; the request
     * is recorded by account.
     */
    method KickPlayer(account: JString)
      modifies this`kicked
      ensures kicked == old(kicked) + [account]
    {
      kicked := kicked + [account];
    }

    /**
     * `requestCharacters(account)`: asks the game server for the account's
     * characters. The frame's layout (`RequestCharacters`) is not part of
     * this model; the request is recorded by account.
     */
    method RequestCharacters(account: JString)
      modifies this`charsRequested
      ensures charsRequested == old(charsRequested) + [account]
    {
      charsRequested := charsRequested + [account];
    }

    /** `setGameHosts(hosts)`: the address list is replaced by the accepted host pairs. */
    method SetGameHosts(hosts: seq<JString>, subnetOk: JString -> bool)
      requires gsi != null
      modifies gsi`addrs
      ensures gsi.addrs == HostPairs(hosts, subnetOk)
    {
      gsi.ClearServerAddresses();
      var i := 0;
      while i < |hosts|
        invariant 0 <= i && i % 2 == 0 && (i > |hosts| ==> i == |hosts| + 1)
        invariant gsi.addrs + HostPairs(hosts[Min(i, |hosts|)..], subnetOk) == HostPairs(hosts, subnetOk)
        decreases |hosts| - i
      {
        var rest := hosts[i..];
        if i + 1 < |hosts| && subnetOk(hosts[i]) {
          gsi.AddServerAddress(hosts[i], hosts[i + 1]);
        }
        assert |rest| >= 2 ==> rest[2..] == hosts[i + 2..];
        i := i + 2;
      }
    }

    /**
     * `attachGameServerInfo(gsi, port, hosts, maxPlayers)`: the connection
     * and the entry point at each other, and the entry is authed with the
     * given port, hosts and player limit.
     */
    method AttachGameServerInfo(gsi: GameServerInfo, port: int, hosts: seq<JString>, maxPlayers: int,
                                subnetOk: JString -> bool)
      modifies this`gsi, gsi
      ensures this.gsi == gsi && gsi.gst == this && gsi.isAuthed
      ensures gsi.port == port && gsi.maxPlayers == maxPlayers && gsi.addrs == HostPairs(hosts, subnetOk)
      ensures gsi.id == old(gsi.id) && gsi.status == old(gsi.status)
      ensures IsAuthed() && ServerId() == old(gsi.id)
    {
      this.gsi := gsi;
      gsi.gst := this;
      gsi.port := port;
      SetGameHosts(hosts, subnetOk);
      gsi.maxPlayers := maxPlayers;
      gsi.isAuthed := true;
    }

    /**
     * The `finally` block of `run`: an authed connection sets its entry
     * down, and the connection's flood entry is released.
     */
    method Teardown(listener: FloodProtectedListener)
      requires listener.Valid()
      modifies gsi, listener, listener.floodProtection.Values
      ensures listener.Valid()
      ensures old(IsAuthed()) ==> gsi.status == STATUS_DOWN && !gsi.isAuthed && gsi.gst == null && gsi.port == 0
      ensures !old(IsAuthed()) && gsi != null ==> gsi.isAuthed == old(gsi.isAuthed) && gsi.status == old(gsi.status)
      ensures listener.Counters() == Release(listener.config, old(listener.Counters()), connectionIp)
    {
      if IsAuthed() {
        gsi.SetDown();
      }
      listener.RemoveFloodProtection(connectionIp);
    }
  }

  function Min(a: int, b: int): int { if a < b then a else b }

  /** One row of the `gameservers` table: the server id and the hex id, already converted to bytes. */
  datatype ServerRow = ServerRow(id: int, hexId: seq<u8>)

  /** The hex id of the last row that names `id`, or None when no row does. */
  function LastHex(rows: seq<ServerRow>, id: int): (h: Option<seq<u8>>)
  {
    if |rows| == 0 then None
    else if rows[|rows| - 1].id == id then Some(rows[|rows| - 1].hexId)
    else LastHex(rows[..|rows| - 1], id)
  }

  /**
   * Some row names `id` exactly when `LastHex` finds one, and a row that no
   * later row overrides gives its id its hex id.
   */
  lemma {:induction false} LastHexIsLast(rows: seq<ServerRow>, id: int)
    ensures LastHex(rows, id).Some? <==> exists i :: 0 <= i < |rows| && rows[i].id == id
    ensures forall i :: 0 <= i < |rows| && rows[i].id == id && (forall j :: i < j < |rows| ==> rows[j].id != id) ==>
      LastHex(rows, id) == Some(rows[i].hexId)
    decreases |rows|
  {
    if |rows| > 0 {
      var init := rows[..|rows| - 1];
      LastHexIsLast(init, id);
      assert forall i :: 0 <= i < |init| ==> init[i] == rows[i];
      if rows[|rows| - 1].id != id {
        if LastHex(rows, id).Some? {
          var i :| 0 <= i < |init| && init[i].id == id;
          assert rows[i].id == id;
        }
      }
    }
  }

  /**
   * The table of registered servers, and the names configured for the
   * known ids (`serverNames`). `serverIds` is the order in which the names
   * map yields its ids; a hash map fixes some order, which is left open here.
   */
  class GameServerTable {
    var gameServerTable: map<int, GameServerInfo>
    const serverNames: map<int, JString>
    const serverIds: seq<int>

    /** `serverIds` lists each configured id once. */
    ghost predicate Valid()
    {
      (forall id :: id in serverNames <==> id in serverIds)
      && forall a, b :: 0 <= a < b < |serverIds| ==> serverIds[a] != serverIds[b]
    }

    /**
     * The configured names (read from `servername.xml`, not part of this
     * model), then `loadRegisteredGameServers` over the rows of the
     * `gameservers` table.
     */
    constructor (serverNames: map<int, JString>, serverIds: seq<int>, rows: seq<ServerRow>)
      requires forall id :: id in serverNames <==> id in serverIds
      requires forall a, b :: 0 <= a < b < |serverIds| ==> serverIds[a] != serverIds[b]
      ensures Valid() && this.serverNames == serverNames && this.serverIds == serverIds
      ensures forall id :: id in gameServerTable <==> LastHex(rows, id).Some?
      ensures HoldsRows(rows)
    {
      gameServerTable := map[];
      this.serverNames := serverNames;
      this.serverIds := serverIds;
      new;
      LoadRegisteredGameServers(rows);
    }

    /** One row of `loadRegisteredGameServers`: a new down entry put under the row's id. */
    method PutRow(row: ServerRow) returns (gsi: GameServerInfo)
      modifies this`gameServerTable
      ensures fresh(gsi) && gameServerTable == old(gameServerTable)[row.id := gsi]
      ensures gsi.id == row.id && gsi.hexId == row.hexId && gsi.status == STATUS_DOWN && !gsi.isAuthed && gsi.gst == null
    {
      gsi := new GameServerInfo(row.id, row.hexId, null);
      gameServerTable := gameServerTable[row.id := gsi];
    }

    /** Every id a row names has a down entry, not authed and unlinked, with the hex id of its last row. */
    ghost predicate HoldsRows(rows: seq<ServerRow>)
      reads this, gameServerTable.Values
    {
      forall id :: LastHex(rows, id).Some? ==>
        && id in gameServerTable
        && var g := gameServerTable[id];
           g.id == id && g.hexId == LastHex(rows, id).value && g.status == STATUS_DOWN && !g.isAuthed && g.gst == null
    }

    /**
     * `loadRegisteredGameServers`: each row puts a new down entry for its
     * id with its hex id, so a later row for an id replaces an earlier one;
     * ids without a row keep their entries.
     */
    method LoadRegisteredGameServers(rows: seq<ServerRow>)
      modifies this`gameServerTable
      ensures forall id :: id in gameServerTable <==> id in old(gameServerTable) || LastHex(rows, id).Some?
      ensures HoldsRows(rows)
      ensures forall id :: LastHex(rows, id).Some? ==> fresh(gameServerTable[id])
      ensures forall id :: id in old(gameServerTable) && LastHex(rows, id).None? ==>
        gameServerTable[id] == old(gameServerTable)[id]
    {
      var k := 0;
      while k < |rows|
        invariant 0 <= k <= |rows|
        invariant forall id :: id in gameServerTable <==> id in old(gameServerTable) || LastHex(rows[..k], id).Some?
        invariant forall id :: LastHex(rows[..k], id).Some? ==>
          && fresh(gameServerTable[id])
          && var g := gameServerTable[id];
             g.id == id && g.hexId == LastHex(rows[..k], id).value && g.status == STATUS_DOWN && !g.isAuthed && g.gst == null
        invariant forall id :: id in old(gameServerTable) && LastHex(rows[..k], id).None? ==>
          gameServerTable[id] == old(gameServerTable)[id]
      {
        assert rows[..k + 1][..k] == rows[..k];
        var _ := PutRow(rows[k]);
        k := k + 1;
      }
      assert rows[..k] == rows;
    }

    /** `getRegisteredGameServerById`: the entry, or null. */
    function RegisteredGameServerById(id: int): (g: GameServerInfo?)
      reads this
      ensures g != null <==> id in gameServerTable
      ensures g != null ==> g == gameServerTable[id]
    {
      if id in gameServerTable then gameServerTable[id] else null
    }

    /** `register(id, gsi)`: binds a free id; an id already taken leaves the table as it was. */
    method Register(id: int, gsi: GameServerInfo) returns (ok: bool)
      modifies this`gameServerTable
      ensures ok <==> id !in old(gameServerTable)
      ensures gameServerTable == if ok then old(gameServerTable)[id := gsi] else old(gameServerTable)
    {
      if id !in gameServerTable {
        gameServerTable := gameServerTable[id := gsi];
        return true;
      }
      return false;
    }

    /**
     * `registerWithFirstAvailableId(gsi)`: the configured ids are tried in
     * iteration order; the first one not in the table is bound to `gsi` and
     * becomes its id.
     */
    method RegisterWithFirstAvailableId(gsi: GameServerInfo) returns (ok: bool)
      requires Valid()
      modifies this`gameServerTable, gsi`id
      ensures ok <==> exists id :: id in serverNames && id !in old(gameServerTable)
      ensures ok ==>
        && gsi.id in serverNames && gsi.id !in old(gameServerTable)
        && gameServerTable == old(gameServerTable)[gsi.id := gsi]
        && forall k :: 0 <= k < |serverIds| && serverIds[k] == gsi.id ==>
             forall j :: 0 <= j < k ==> serverIds[j] in old(gameServerTable)
      ensures !ok ==> gameServerTable == old(gameServerTable) && gsi.id == old(gsi.id)
    {
      var i := 0;
      while i < |serverIds|
        invariant 0 <= i <= |serverIds| && gameServerTable == old(gameServerTable) && gsi.id == old(gsi.id)
        invariant forall j :: 0 <= j < i ==> serverIds[j] in gameServerTable
      {
        var serverId := serverIds[i];
        if serverId !in gameServerTable {
          gameServerTable := gameServerTable[serverId := gsi];
          gsi.id := serverId;
          return true;
        }
        i := i + 1;
      }
      return false;
    }

    /**
     * `registerServerOnDB(hexId, id, host)`: a new entry for `id` with this
     * hex id, bound only when the id is free. The database row is not
     * modelled.
     */
    method RegisterServerOnDB(hexId: seq<u8>, id: int)
      modifies this`gameServerTable
      ensures id in old(gameServerTable) ==> gameServerTable == old(gameServerTable)
      ensures id !in old(gameServerTable) ==>
        && gameServerTable.Keys == old(gameServerTable).Keys + {id}
        && fresh(gameServerTable[id]) && gameServerTable[id].hexId == hexId && gameServerTable[id].id == id
        && gameServerTable[id].status == STATUS_DOWN && !gameServerTable[id].isAuthed
        && forall k :: k in old(gameServerTable) ==> gameServerTable[k] == old(gameServerTable)[k]
    {
      var gsi := new GameServerInfo(id, hexId, null);
      var _ := Register(id, gsi);
    }
  }
}
