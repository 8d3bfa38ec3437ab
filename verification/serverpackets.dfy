/**
 * The packets the login server sends to clients
 * (login/network/serverpackets): the session key they carry, the reason
 * codes of `PlayFail` and `AccountKicked`, and the bodies `write()` appends
 * to the connection's packet buffer (the buffer is not sealed here; the
 * client's `LoginCrypt` pads and enciphers it).
 */
module ServerPackets {
  import opened Wire
  import opened JavaText
  import opened Packets
  import opened Registry

  // ================================================================ session key

  /** A session key: the pair shown to the client at login, and the pair used to enter a game server. */
  datatype SessionKey = SessionKey(loginOkID1: int, loginOkID2: int, playOkID1: int, playOkID2: int)

  /** `checkLoginPair`: the client echoes the login pair it was given. */
  predicate CheckLoginPair(key: SessionKey, loginOk1: int, loginOk2: int)
  {
    key.loginOkID1 == loginOk1 && key.loginOkID2 == loginOk2
  }

  // ================================================================ reason codes

  /** `LoginFail.LoginFailReason`, reduced to the reasons this server sends. */
  datatype LoginFailReason = UserOrPassWrong | AccountInUse | AccessFailed

  /** `PlayFail.PlayFailReason`. */
  datatype PlayFailReason =
    | NoMessage | SystemErrorLoginLater | UserOrPassWrongPlay | AccessFailedTryAgainLater
    | AccountInfoIncorrectContactSupport | AccountInUsePlay | Under18YearsKr | ServerOverloaded
    | ServerMaintenance | TempPassExpired | GameTimeExpired | NoTimeLeft | SystemError
    | AccessFailedPlay | RestrictedIp | WeekUsageFinished | SecurityCardNumberInvalid
    | AgeNotVerified | ServerCannotBeAccessedByCoupon | DualBox | Inactive
    | UserAgreementRejectedOnWebsite | GuardianConsentRequired | UserAgreementDeclined
    | AccountSuspendedCall | ChangePasswordAndQuizOnWebsite | AlreadyLoggedInto10Accounts
    | MasterAccountRestricted | CertificationFailed | TelephoneCertificationUnavailable
    | TelephoneSignalsDelayed | CertificationFailedLineBusy | CertificationNumberExpiredOrIncorrect
    | CertificationBeingChecked | CertificationHeavyVolume | CertificationExpiredGameplayBlocked
    | CertificationFailed3Times | CertificationDailyUseExceeded | CertificationUnderway

  /**
   * `getCode`: the code each reason was built with. Every code lies in
   * 0x00..0x38 and `PlayFailReasonOf` recovers the reason from it, so the
   * codes are pairwise distinct.
   */
  function PlayFailCode(r: PlayFailReason): (c: int)
    ensures 0 <= c <= 0x38
    ensures PlayFailReasonOf(c) == Some(r)
  {
    match r
    case NoMessage => 0x00
    case SystemErrorLoginLater => 0x01
    case UserOrPassWrongPlay => 0x02
    case AccessFailedTryAgainLater => 0x04
    case AccountInfoIncorrectContactSupport => 0x05
    case AccountInUsePlay => 0x07
    case Under18YearsKr => 0x0C
    case ServerOverloaded => 0x0F
    case ServerMaintenance => 0x10
    case TempPassExpired => 0x11
    case GameTimeExpired => 0x12
    case NoTimeLeft => 0x13
    case SystemError => 0x14
    case AccessFailedPlay => 0x15
    case RestrictedIp => 0x16
    case WeekUsageFinished => 0x1E
    case SecurityCardNumberInvalid => 0x1F
    case AgeNotVerified => 0x20
    case ServerCannotBeAccessedByCoupon => 0x21
    case DualBox => 0x23
    case Inactive => 0x24
    case UserAgreementRejectedOnWebsite => 0x25
    case GuardianConsentRequired => 0x26
    case UserAgreementDeclined => 0x27
    case AccountSuspendedCall => 0x28
    case ChangePasswordAndQuizOnWebsite => 0x29
    case AlreadyLoggedInto10Accounts => 0x2A
    case MasterAccountRestricted => 0x2B
    case CertificationFailed => 0x2E
    case TelephoneCertificationUnavailable => 0x2F
    case TelephoneSignalsDelayed => 0x30
    case CertificationFailedLineBusy => 0x31
    case CertificationNumberExpiredOrIncorrect => 0x32
    case CertificationBeingChecked => 0x33
    case CertificationHeavyVolume => 0x34
    case CertificationExpiredGameplayBlocked => 0x35
    case CertificationFailed3Times => 0x36
    case CertificationDailyUseExceeded => 0x37
    case CertificationUnderway => 0x38
  }

  /** The reason a client reads from a `PlayFail` code byte; codes no reason uses are `None`. */
  function PlayFailReasonOf(c: int): Option<PlayFailReason>
  {
    match c
    case 0x00 => Some(NoMessage)
    case 0x01 => Some(SystemErrorLoginLater)
    case 0x02 => Some(UserOrPassWrongPlay)
    case 0x04 => Some(AccessFailedTryAgainLater)
    case 0x05 => Some(AccountInfoIncorrectContactSupport)
    case 0x07 => Some(AccountInUsePlay)
    case 0x0C => Some(Under18YearsKr)
    case 0x0F => Some(ServerOverloaded)
    case 0x10 => Some(ServerMaintenance)
    case 0x11 => Some(TempPassExpired)
    case 0x12 => Some(GameTimeExpired)
    case 0x13 => Some(NoTimeLeft)
    case 0x14 => Some(SystemError)
    case 0x15 => Some(AccessFailedPlay)
    case 0x16 => Some(RestrictedIp)
    case 0x1E => Some(WeekUsageFinished)
    case 0x1F => Some(SecurityCardNumberInvalid)
    case 0x20 => Some(AgeNotVerified)
    case 0x21 => Some(ServerCannotBeAccessedByCoupon)
    case 0x23 => Some(DualBox)
    case 0x24 => Some(Inactive)
    case 0x25 => Some(UserAgreementRejectedOnWebsite)
    case 0x26 => Some(GuardianConsentRequired)
    case 0x27 => Some(UserAgreementDeclined)
    case 0x28 => Some(AccountSuspendedCall)
    case 0x29 => Some(ChangePasswordAndQuizOnWebsite)
    case 0x2A => Some(AlreadyLoggedInto10Accounts)
    case 0x2B => Some(MasterAccountRestricted)
    case 0x2E => Some(CertificationFailed)
    case 0x2F => Some(TelephoneCertificationUnavailable)
    case 0x30 => Some(TelephoneSignalsDelayed)
    case 0x31 => Some(CertificationFailedLineBusy)
    case 0x32 => Some(CertificationNumberExpiredOrIncorrect)
    case 0x33 => Some(CertificationBeingChecked)
    case 0x34 => Some(CertificationHeavyVolume)
    case 0x35 => Some(CertificationExpiredGameplayBlocked)
    case 0x36 => Some(CertificationFailed3Times)
    case 0x37 => Some(CertificationDailyUseExceeded)
    case 0x38 => Some(CertificationUnderway)
    case _ => None
  }

  /** `AccountKicked.AccountKickedReason`. */
  datatype AccountKickedReason = DataStealer | GenericViolation | SevenDaysSuspended | PermanentlyBanned

  /**
   * `getCode`: 0x01, 0x08, 0x10 or 0x20, each a single bit, and
   * `AccountKickedReasonOf` recovers the reason, so no two share a code.
   */
  function AccountKickedCode(r: AccountKickedReason): (c: int)
    ensures c == 0x01 || c == 0x08 || c == 0x10 || c == 0x20
    ensures AccountKickedReasonOf(c) == Some(r)
  {
    match r
    case DataStealer => 0x01
    case GenericViolation => 0x08
    case SevenDaysSuspended => 0x10
    case PermanentlyBanned => 0x20
  }

  /** The reason a client reads from an `AccountKicked` code. */
  function AccountKickedReasonOf(c: int): Option<AccountKickedReason>
  {
    match c
    case 0x01 => Some(DataStealer)
    case 0x08 => Some(GenericViolation)
    case 0x10 => Some(SevenDaysSuspended)
    case 0x20 => Some(PermanentlyBanned)
    case _ => None
  }

  // ================================================================ fixed-layout bodies

  /** `PlayFail.write`: opcode 0x06 and the reason's code; the client reads the reason back. */
  method WritePlayFail(reason: PlayFailReason) returns (body: seq<u8>)
    ensures |body| == 2 && body[0] == 0x06
    ensures TakeC(body, 1) == Some(Got(PlayFailCode(reason), 2))
    ensures PlayFailReasonOf(body[1]) == Some(reason)
  {
    var w := new Writer();
    w.WriteC(0x06);
    w.WriteC(PlayFailCode(reason));
    body := w.bytes;
    ReadWrittenC([0x06], PlayFailCode(reason), []);
    assert body == [0x06] + [Low8(PlayFailCode(reason))] + [];
  }

  /** `AccountKicked.write`: opcode 0x02 and the reason's code as an int; the client reads the reason back. */
  method WriteAccountKicked(reason: AccountKickedReason) returns (body: seq<u8>)
    ensures |body| == 5 && body[0] == 0x02
    ensures TakeD(body, 1) == Some(Got(AccountKickedCode(reason), 5))
    ensures AccountKickedReasonOf(TakeD(body, 1).value.value) == Some(reason)
  {
    var w := new Writer();
    w.WriteC(0x02);
    w.WriteD(AccountKickedCode(reason));
    body := w.bytes;
    ReadWrittenD([0x02], AccountKickedCode(reason), []);
    assert body == [0x02] + LE32(AccountKickedCode(reason)) + [];
  }

  /**
   * `LoginOk.write`: opcode 0x03, the login pair of the session key, the
   * ints 0, 0, 0x3ea, 0, 0, 0 and sixteen zero bytes: 49 bytes. The play
   * pair is not sent.
   */
  method WriteLoginOk(key: SessionKey) returns (body: seq<u8>)
    requires IsInt32(key.loginOkID1) && IsInt32(key.loginOkID2)
    ensures |body| == 49 && body[0] == 0x03
    ensures TakeD(body, 1) == Some(Got(key.loginOkID1, 5))
    ensures TakeD(body, 5) == Some(Got(key.loginOkID2, 9))
    ensures TakeD(body, 17) == Some(Got(0x3ea, 21))
    ensures forall k :: (9 <= k < 17 || 21 <= k < 49) ==> body[k] == 0
  {
    var w := new Writer();
    w.WriteC(0x03);
    w.WriteD(key.loginOkID1);
    w.WriteD(key.loginOkID2);
    WriteLoginOkTail(w);
    body := w.bytes;
    var a, b := LE32(key.loginOkID1), LE32(key.loginOkID2);
    var tail := LoginOkTail();
    assert body == [0x03] + a + (b + tail);
    ReadWrittenD([0x03], key.loginOkID1, b + tail);
    assert body == [0x03] + a + b + tail;
    ReadWrittenD([0x03] + a, key.loginOkID2, tail);
    assert body == ([0x03] + a + b + Zeros(8)) + LE32(0x3ea) + Zeros(28);
    ReadWrittenD([0x03] + a + b + Zeros(8), 0x3ea, Zeros(28));
  }

  /** The fixed part of `LoginOk` after the login pair. */
  function LoginOkTail(): (r: seq<u8>)
    ensures |r| == 40
  {
    Zeros(8) + LE32(0x3ea) + Zeros(28)
  }

  /** The ints 0, 0, 0x3ea, 0, 0, 0 and sixteen zero bytes. */
  method WriteLoginOkTail(w: Writer)
    modifies w
    ensures w.bytes == old(w.bytes) + LoginOkTail()
  {
    var z := Zeros(4);
    assert LE32(0) == z;
    w.WriteD(0x00);
    w.WriteD(0x00);
    w.WriteD(0x3ea);
    w.WriteD(0x00);
    w.WriteD(0x00);
    w.WriteD(0x00);
    w.WriteB(Zeros(16));
    assert z + z == Zeros(8);
    assert z + z + z + Zeros(16) == Zeros(28);
  }

  // ================================================================ server list

  /** An IPv4 address as its four bytes. */
  type IPv4 = s: seq<u8> | |s| == 4 witness [127, 0, 0, 1]

  /** The address written when the advertised host cannot be resolved. */
  const LOOPBACK: IPv4 := [127, 0, 0, 1]

  /** One `ServerData` record of a server list. */
  datatype ServerData = ServerData(
    serverId: int, ip: IPv4, port: int, ageLimit: int, pvp: bool, currentPlayers: int,
    maxPlayers: int, brackets: bool, status: int, serverType: int)

  /** The list a `ServerList` packet carries: its records, the client's last server and its character counts. */
  datatype ServerListData = ServerListData(
    servers: seq<ServerData>, lastServer: int,
    charsOnServers: Option<map<int, int>>, charsToDelete: Option<map<int, seq<int>>>)

  /**
   * The status a client is shown: the server's own, except that a GM-only
   * server looks down to a client without access.
   */
  function DisplayedStatus(status: int, accessLevel: int): (s: int)
    ensures s == status || (status == STATUS_GM_ONLY && s == STATUS_DOWN)
    ensures s == STATUS_GM_ONLY ==> accessLevel > 0
    ensures status != STATUS_GM_ONLY || accessLevel > 0 ==> s == status
  {
    if status != STATUS_GM_ONLY then status
    else if accessLevel > 0 then status
    else STATUS_DOWN
  }

  /**
   * `new ServerData(client, gsi)`: the host advertised for the client's
   * address, resolved by `resolve` (a host that does not resolve gives
   * 127.0.0.1), the entry's port, pvp flag, type, player counts and
   * brackets, age limit 0, and the displayed status.
   */
  function NewServerData(gsi: GameServerInfo, accessLevel: int, clientAddr: JString,
                         inSubnet: (JString, JString) -> bool, resolve: Option<JString> -> Option<IPv4>): (d: ServerData)
    reads gsi, gsi.gst
    ensures d.serverId == gsi.id && d.port == gsi.port && d.pvp == gsi.isPvp && d.ageLimit == 0
    ensures d.serverType == gsi.serverType && d.maxPlayers == gsi.maxPlayers && d.brackets == gsi.isShowingBrackets
    ensures d.currentPlayers == gsi.CurrentPlayerCount() && d.status == DisplayedStatus(gsi.status, accessLevel)
    ensures resolve(ServerAddress(gsi.addrs, inSubnet, clientAddr)).None? ==> d.ip == LOOPBACK
  {
    var ip := match resolve(ServerAddress(gsi.addrs, inSubnet, clientAddr))
      case Some(a) => a
      case None => LOOPBACK;
    ServerData(gsi.id, ip, gsi.port, 0, gsi.isPvp, gsi.CurrentPlayerCount(), gsi.maxPlayers,
               gsi.isShowingBrackets, DisplayedStatus(gsi.status, accessLevel), gsi.serverType)
  }

  /**
   * `new ServerList(client)`: one record per registered server, in the
   * table's iteration order `order` (which lists each registered id once),
   * and the client's last server and character maps.
   */
  method NewServerList(table: GameServerTable, order: seq<int>, lastServer: int, accessLevel: int,
                       clientAddr: JString, inSubnet: (JString, JString) -> bool,
                       resolve: Option<JString> -> Option<IPv4>,
                       charsOnServers: Option<map<int, int>>, charsToDelete: Option<map<int, seq<int>>>)
    returns (list: ServerListData)
    requires forall i :: 0 <= i < |order| ==> order[i] in table.gameServerTable
    requires forall id :: id in table.gameServerTable ==> id in order
    requires forall a, b :: 0 <= a < b < |order| ==> order[a] != order[b]
    ensures |list.servers| == |order|
    ensures forall i :: 0 <= i < |order| ==>
      list.servers[i] == NewServerData(table.gameServerTable[order[i]], accessLevel, clientAddr, inSubnet, resolve)
    ensures list.lastServer == lastServer && list.charsOnServers == charsOnServers && list.charsToDelete == charsToDelete
  {
    var servers: seq<ServerData> := [];
    var i := 0;
    while i < |order|
      invariant 0 <= i <= |order| && |servers| == i
      invariant forall j :: 0 <= j < i ==>
        servers[j] == NewServerData(table.gameServerTable[order[j]], accessLevel, clientAddr, inSubnet, resolve)
    {
      var gsi := table.gameServerTable[order[i]];
      servers := servers + [NewServerData(gsi, accessLevel, clientAddr, inSubnet, resolve)];
      i := i + 1;
    }
    list := ServerListData(servers, lastServer, charsOnServers, charsToDelete);
  }

  /** The 21 bytes written for one server: its address, its counts and its flags. */
  function Record(d: ServerData): (r: seq<u8>)
    ensures |r| == 21
  {
    RecordAddress(d) + RecordCounts(d) + RecordFlags(d)
  }

  /** Server id and the four address bytes. */
  function RecordAddress(d: ServerData): (r: seq<u8>)
    ensures |r| == 5
  {
    [Low8(d.serverId)] + d.ip
  }

  /** Port, age limit, pvp flag and the two player counts. */
  function RecordCounts(d: ServerData): (r: seq<u8>)
    ensures |r| == 10
  {
    LE32(d.port) + [Low8(d.ageLimit), if d.pvp then 1 else 0] + LE16(d.currentPlayers) + LE16(d.maxPlayers)
  }

  /** The up flag, the server type and the brackets flag. */
  function RecordFlags(d: ServerData): (r: seq<u8>)
    ensures |r| == 6
  {
    [if d.status == STATUS_DOWN then 0 else 1] + LE32(d.serverType) + [if d.brackets then 1 else 0]
  }

  /** The records of a list, in order. */
  function Records(servers: seq<ServerData>): (r: seq<u8>)
    ensures |r| == 21 * |servers|
  {
    if servers == [] then [] else Records(servers[..|servers| - 1]) + Record(servers[|servers| - 1])
  }

  /**
   * The seconds until a character is deleted, as written:
   * `(int) ((deleteTime - now) / 1000)` with `long` arithmetic.
   */
  function DeleteSeconds(deleteTime: int, now: int): (s: int)
    ensures IsInt32(s)
  {
    Wrap32(JavaDiv(Wrap64(deleteTime - now), 1000))
  }

  /** The deletion timers of one server, one int each. */
  function Timers(times: seq<int>, now: int): (r: seq<u8>)
    ensures |r| == 4 * |times|
  {
    if times == [] then [] else Timers(times[..|times| - 1], now) + LE32(DeleteSeconds(times[|times| - 1], now))
  }

  /** The entry for one server in the character section: id, count, and the deletion timers if any. */
  function CharEntry(id: int, chars: int, toDelete: Option<map<int, seq<int>>>, now: int): seq<u8>
  {
    [Low8(id), Low8(chars)]
    + if toDelete.None? || id !in toDelete.value then [0]
      else [Low8(|toDelete.value[id]|)] + Timers(toDelete.value[id], now)
  }

  /** The entries for the ids of `order`, in order. */
  function CharEntries(order: seq<int>, chars: map<int, int>, toDelete: Option<map<int, seq<int>>>, now: int): seq<u8>
    requires forall id :: id in order ==> id in chars
  {
    if order == [] then []
    else
      var last := order[|order| - 1];
      CharEntries(order[..|order| - 1], chars, toDelete, now) + CharEntry(last, chars[last], toDelete, now)
  }

  /** Whether `order` lists each key of the character map once, as its key-set iteration would. */
  ghost predicate ListsKeys(order: seq<int>, chars: map<int, int>)
  {
    (forall id :: id in order <==> id in chars)
    && forall a, b :: 0 <= a < b < |order| ==> order[a] != order[b]
  }

  /** The bytes of a whole `ServerList`. */
  function ServerListBytes(list: ServerListData, order: seq<int>, now: int): seq<u8>
    requires list.charsOnServers.Some? ==> ListsKeys(order, list.charsOnServers.value)
  {
    [0x04, Low8(|list.servers|), Low8(list.lastServer)] + Records(list.servers) + [0, 0]
    + CharsSection(list.charsOnServers, order, list.charsToDelete, now)
  }

  /** The character section: one zero byte without a map, else the entry count and the entries. */
  function CharsSection(charsOnServers: Option<map<int, int>>, order: seq<int>,
                        toDelete: Option<map<int, seq<int>>>, now: int): seq<u8>
    requires charsOnServers.Some? ==> ListsKeys(order, charsOnServers.value)
  {
    match charsOnServers
    case None => [0]
    case Some(chars) => [Low8(|chars|)] + CharEntries(order, chars, toDelete, now)
  }

  /**
   * `ServerList.write`, with `now` standing for the clock and `order` for
   * the iteration order of the character map.
   */
  method WriteServerList(list: ServerListData, order: seq<int>, now: int) returns (body: seq<u8>)
    requires list.charsOnServers.Some? ==> ListsKeys(order, list.charsOnServers.value)
    ensures body == ServerListBytes(list, order, now)
  {
    var w := new Writer();
    w.WriteC(0x04);
    w.WriteC(|list.servers|);
    w.WriteC(list.lastServer);
    assert w.bytes == [0x04, Low8(|list.servers|), Low8(list.lastServer)];
    WriteRecords(w, list.servers);
    w.WriteH(0x00);
    assert LE16(0) == [0, 0];
    WriteCharsSection(w, list.charsOnServers, order, list.charsToDelete, now);
    body := w.bytes;
  }

  /** The loop over the servers: their records, in order. */
  method WriteRecords(w: Writer, servers: seq<ServerData>)
    modifies w
    ensures w.bytes == old(w.bytes) + Records(servers)
  {
    var i := 0;
    while i < |servers|
      invariant 0 <= i <= |servers|
      invariant w.bytes == old(w.bytes) + Records(servers[..i])
    {
      ghost var done := Records(servers[..i]);
      WriteRecord(w, servers[i]);
      AppendAssoc(old(w.bytes), done, Record(servers[i]));
      assert servers[..i + 1][..i] == servers[..i];
      assert Records(servers[..i + 1]) == done + Record(servers[i]);
      i := i + 1;
    }
    assert servers[..i] == servers;
  }

  /** The character section: a zero byte without a map, else its size and one entry per id of `order`. */
  method WriteCharsSection(w: Writer, charsOnServers: Option<map<int, int>>, order: seq<int>,
                           toDelete: Option<map<int, seq<int>>>, now: int)
    requires charsOnServers.Some? ==> ListsKeys(order, charsOnServers.value)
    modifies w
    ensures w.bytes == old(w.bytes) + CharsSection(charsOnServers, order, toDelete, now)
  {
    if charsOnServers.Some? {
      var chars := charsOnServers.value;
      ghost var start := w.bytes;
      w.WriteC(|chars|);
      WriteCharEntries(w, order, chars, toDelete, now);
      AppendAssoc(start, [Low8(|chars|)], CharEntries(order, chars, toDelete, now));
    } else {
      w.WriteC(0x00);
    }
  }

  /** The loop over the ids of the character map. */
  method WriteCharEntries(w: Writer, order: seq<int>, chars: map<int, int>, toDelete: Option<map<int, seq<int>>>, now: int)
    requires forall id :: id in order ==> id in chars
    modifies w
    ensures w.bytes == old(w.bytes) + CharEntries(order, chars, toDelete, now)
  {
    var k := 0;
    while k < |order|
      invariant 0 <= k <= |order|
      invariant w.bytes == old(w.bytes) + CharEntries(order[..k], chars, toDelete, now)
    {
      ghost var done := CharEntries(order[..k], chars, toDelete, now);
      ghost var entry := CharEntry(order[k], chars[order[k]], toDelete, now);
      WriteCharEntry(w, order[k], chars[order[k]], toDelete, now);
      AppendAssoc(old(w.bytes), done, entry);
      assert order[..k + 1][..k] == order[..k];
      assert CharEntries(order[..k + 1], chars, toDelete, now) == done + entry;
      k := k + 1;
    }
    assert order[..k] == order;
  }

  /** The loop body for one server: its 21-byte record. */
  method WriteRecord(w: Writer, server: ServerData)
    modifies w
    ensures w.bytes == old(w.bytes) + Record(server)
  {
    WriteRecordAddress(w, server);
    WriteRecordCounts(w, server);
    WriteRecordFlags(w, server);
  }

  method WriteRecordAddress(w: Writer, server: ServerData)
    modifies w
    ensures w.bytes == old(w.bytes) + RecordAddress(server)
  {
    w.WriteC(server.serverId);
    w.WriteC(server.ip[0]);
    w.WriteC(server.ip[1]);
    w.WriteC(server.ip[2]);
    w.WriteC(server.ip[3]);
  }

  method WriteRecordCounts(w: Writer, server: ServerData)
    modifies w
    ensures w.bytes == old(w.bytes) + RecordCounts(server)
  {
    w.WriteD(server.port);
    w.WriteC(server.ageLimit);
    w.WriteC(if server.pvp then 0x01 else 0x00);
    w.WriteH(server.currentPlayers);
    w.WriteH(server.maxPlayers);
  }

  method WriteRecordFlags(w: Writer, server: ServerData)
    modifies w
    ensures w.bytes == old(w.bytes) + RecordFlags(server)
  {
    w.WriteC(if server.status == STATUS_DOWN then 0x00 else 0x01);
    w.WriteD(server.serverType);
    w.WriteC(if server.brackets then 0x01 else 0x00);
  }

  /** The loop body for one server id of the character map. */
  method WriteCharEntry(w: Writer, servId: int, chars: int, toDelete: Option<map<int, seq<int>>>, now: int)
    modifies w
    ensures w.bytes == old(w.bytes) + CharEntry(servId, chars, toDelete, now)
  {
    ghost var start := w.bytes;
    w.WriteC(servId);
    w.WriteC(chars);
    if toDelete.None? || servId !in toDelete.value {
      w.WriteC(0x00);
      assert w.bytes == start + ([Low8(servId), Low8(chars)] + [0]);
    } else {
      var times := toDelete.value[servId];
      w.WriteC(|times|);
      WriteTimers(w, times, now);
      assert w.bytes == start + ([Low8(servId), Low8(chars)] + ([Low8(|times|)] + Timers(times, now)));
    }
  }

  /** The deletion timers of one server, one int each. */
  method WriteTimers(w: Writer, times: seq<int>, now: int)
    modifies w
    ensures w.bytes == old(w.bytes) + Timers(times, now)
  {
    var t := 0;
    while t < |times|
      invariant 0 <= t <= |times|
      invariant w.bytes == old(w.bytes) + Timers(times[..t], now)
    {
      w.WriteD(DeleteSeconds(times[t], now));
      assert times[..t + 1][..t] == times[..t];
      t := t + 1;
    }
    assert times[..t] == times;
  }

  /**
   * The layout of one record: id, the four address bytes, the port, the
   * age limit, the pvp flag, the player counts, the up flag (0 exactly when
   * the shown status is DOWN), the type and the brackets flag.
   */
  lemma RecordLayout(d: ServerData)
    requires IsInt32(d.port) && IsInt32(d.serverType)
    ensures var r := Record(d);
      && TakeC(r, 0) == Some(Got(d.serverId % 0x100, 1))
      && r[1..5] == d.ip
      && TakeD(r, 5) == Some(Got(d.port, 9))
      && r[9] == d.ageLimit % 0x100 && r[10] == (if d.pvp then 1 else 0)
      && TakeH(r, 11) == Some(Got(d.currentPlayers % TWO16, 13))
      && TakeH(r, 13) == Some(Got(d.maxPlayers % TWO16, 15))
      && (r[15] == 0 <==> d.status == STATUS_DOWN)
      && TakeD(r, 16) == Some(Got(d.serverType, 20))
      && r[20] == (if d.brackets then 1 else 0)
  {
    RecordHeadLayout(d);
    RecordCountsLayout(d);
    RecordFlagsLayout(d);
  }

  /** The id byte and the address of a record. */
  lemma RecordHeadLayout(d: ServerData)
    ensures var r := Record(d);
      TakeC(r, 0) == Some(Got(d.serverId % 0x100, 1)) && r[1..5] == d.ip
  {
    var r := Record(d);
    ReadWrittenC([], d.serverId, r[1..]);
    assert r == [] + [Low8(d.serverId)] + r[1..];
    assert r[1..5] == RecordAddress(d)[1..];
  }

  /** The port, the age limit, the pvp flag and the two player counts of a record. */
  lemma RecordCountsLayout(d: ServerData)
    requires IsInt32(d.port)
    ensures var r := Record(d);
      && TakeD(r, 5) == Some(Got(d.port, 9))
      && r[9] == d.ageLimit % 0x100 && r[10] == (if d.pvp then 1 else 0)
      && TakeH(r, 11) == Some(Got(d.currentPlayers % TWO16, 13))
      && TakeH(r, 13) == Some(Got(d.maxPlayers % TWO16, 15))
  {
    var r := Record(d);
    var a, b, c := RecordAddress(d), RecordCounts(d), RecordFlags(d);
    var p4 := LE32(d.port);
    var mid: seq<u8> := [Low8(d.ageLimit), if d.pvp then 1 else 0];
    var cur, max := LE16(d.currentPlayers), LE16(d.maxPlayers);
    assert r == a + b + c;
    assert b == p4 + mid + cur + max;
    ReadWrittenD(a, d.port, mid + cur + max + c);
    assert r == a + p4 + (mid + cur + max + c);
    ReadWrittenH(a + p4 + mid, d.currentPlayers, max + c);
    assert r == a + p4 + mid + cur + (max + c);
    ReadWrittenH(a + p4 + mid + cur, d.maxPlayers, c);
    assert r == a + p4 + mid + cur + max + c;
  }

  /** The up flag, the type and the brackets flag of a record. */
  lemma RecordFlagsLayout(d: ServerData)
    requires IsInt32(d.serverType)
    ensures var r := Record(d);
      && (r[15] == 0 <==> d.status == STATUS_DOWN)
      && TakeD(r, 16) == Some(Got(d.serverType, 20))
      && r[20] == (if d.brackets then 1 else 0)
  {
    var r := Record(d);
    var head := RecordAddress(d) + RecordCounts(d);
    var up: seq<u8> := [if d.status == STATUS_DOWN then 0 else 1];
    var tail: seq<u8> := [if d.brackets then 1 else 0];
    assert r == head + up + LE32(d.serverType) + tail;
    ReadWrittenD(head + up, d.serverType, tail);
  }

  /** Record `i` of a list sits at bytes `21 i .. 21 i + 21` of the records. */
  lemma {:induction false} RecordAt(servers: seq<ServerData>, i: int)
    requires 0 <= i < |servers|
    ensures Records(servers)[21 * i..21 * i + 21] == Record(servers[i])
    decreases |servers|
  {
    var n := |servers|;
    var init := servers[..n - 1];
    assert Records(servers) == Records(init) + Record(servers[n - 1]);
    if i < n - 1 {
      RecordAt(init, i);
      assert Records(servers)[21 * i..21 * i + 21] == Records(init)[21 * i..21 * i + 21];
    }
  }

  /**
   * The header of a list: opcode 0x04, the record count and the last
   * server; record `i` starts at byte 3 + 21 i; the records are followed by
   * a zero short; without a character map the body ends with one zero byte.
   */
  lemma ServerListLayout(list: ServerListData, order: seq<int>, now: int, i: int)
    requires list.charsOnServers.Some? ==> ListsKeys(order, list.charsOnServers.value)
    requires 0 <= i < |list.servers|
    ensures var b := ServerListBytes(list, order, now); var n := |list.servers|;
      && b[..3] == [0x04, n % 0x100, list.lastServer % 0x100]
      && b[3 + 21 * i..3 + 21 * i + 21] == Record(list.servers[i])
      && b[3 + 21 * n..5 + 21 * n] == [0, 0]
      && (list.charsOnServers.None? ==> |b| == 6 + 21 * n && b[5 + 21 * n] == 0)
  {
    var n := |list.servers|;
    var header: seq<u8> := [0x04, Low8(n), Low8(list.lastServer)];
    var recs := Records(list.servers);
    var chars := CharsSection(list.charsOnServers, order, list.charsToDelete, now);
    var front := header + recs;
    var b := front + [0, 0] + chars;
    assert b == ServerListBytes(list, order, now);
    assert |front| == 3 + 21 * n;
    RecordAt(list.servers, i);
    var lo := 3 + 21 * i;
    assert b[lo..lo + 21] == front[lo..lo + 21] by {
      assert b[..|front|] == front;
    }
    assert front[lo..lo + 21] == recs[21 * i..21 * i + 21];
    assert b[|front|..|front| + 2] == [0, 0];
  }

  /** For a deletion time ahead of the clock (by less than 2^31 seconds), the timer is the whole seconds left. */
  lemma DeleteSecondsAhead(deleteTime: int, now: int)
    requires IsInt64(deleteTime) && IsInt64(now) && now <= deleteTime < now + 0x8000_0000 * 1000
    ensures DeleteSeconds(deleteTime, now) == (deleteTime - now) / 1000
  {
  }

  /** For a deletion time already past (by less than 2^31 seconds), the timer is minus the whole seconds since. */
  lemma DeleteSecondsPast(deleteTime: int, now: int)
    requires IsInt64(deleteTime) && IsInt64(now) && now - 0x8000_0000 * 1000 < deleteTime <= now
    ensures DeleteSeconds(deleteTime, now) == -((now - deleteTime) / 1000)
  {
  }

  /** The packets the login server sends a client, as the client's connection records them. */
  datatype ServerPacket =
    | SendLoginOk(key: SessionKey)
    | SendServerList(list: ServerListData)
    | SendPlayOk(key: SessionKey)
    | SendLoginFail(loginFail: LoginFailReason)
    | SendPlayFail(playFail: PlayFailReason)
    | SendAccountKicked(kicked: AccountKickedReason)
}
