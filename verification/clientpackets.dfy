/**
 * The packets login clients send (login/network/clientpackets) and their
 * dispatch by client state (login/network/L2LoginPacketHandler.java).
 *
 * A client packet is built by the handler, then `read` fills its fields
 * from cursor 1 of the decrypted frame (any exception while reading makes
 * `read` answer false and the packet is dropped), and only then does `run`
 * act on the client and the controller.
 */
module ClientPackets {
  import opened Wire
  import opened JavaText
  import opened Packets
  import opened Registry
  import opened ServerPackets
  import opened Login

  // ================================================================ dispatch

  /** The client packet classes the handler can build. */
  datatype ClientPacket = AuthGameGuardPacket | RequestAuthLoginPacket | RequestServerLoginPacket | RequestServerListPacket

  /**
   * `L2LoginPacketHandler.handlePacket`: the packet class for an opcode in a
   * client state. CONNECTED accepts only 0x07, AUTHED_GG only 0x00 and
   * AUTHED_LOGIN only 0x02 and 0x05; any other opcode is logged and gives no
   * packet, without closing the connection.
   */
  function ClientDispatch(state: LoginClientState, opcode: u8): (r: Option<ClientPacket>)
    ensures r == Some(AuthGameGuardPacket) <==> state == ClientConnected && opcode == 0x07
    ensures r == Some(RequestAuthLoginPacket) <==> state == AuthedGG && opcode == 0x00
    ensures r == Some(RequestServerLoginPacket) <==> state == AuthedLogin && opcode == 0x02
    ensures r == Some(RequestServerListPacket) <==> state == AuthedLogin && opcode == 0x05
  {
    match state
    case ClientConnected => if opcode == 0x07 then Some(AuthGameGuardPacket) else None
    case AuthedGG => if opcode == 0x00 then Some(RequestAuthLoginPacket) else None
    case AuthedLogin =>
      if opcode == 0x02 then Some(RequestServerLoginPacket)
      else if opcode == 0x05 then Some(RequestServerListPacket)
      else None
  }

  /** Each state accepts at most two opcodes, and no opcode is accepted in two states. */
  lemma DispatchByState(state: LoginClientState, other: LoginClientState, opcode: u8)
    requires state != other && ClientDispatch(state, opcode).Some?
    ensures ClientDispatch(other, opcode).None?
    ensures state != AuthedLogin ==> forall op: u8 :: op != opcode ==> ClientDispatch(state, op).None?
  {
  }

  // ================================================================ RequestAuthLogin: reading

  /**
   * The RSA blocks of a `RequestAuthLogin`: the first, and the second when
   * the client uses the two-block layout (`_newAuthMethod`).
   */
  datatype AuthLoginBlocks = AuthLoginBlocks(raw1: seq<u8>, raw2: Option<seq<u8>>)

  const RSA_BLOCK := 128

  /**
   * `RequestAuthLogin.readImpl` on a frame whose opcode is byte 0: with at
   * least 256 bytes after the opcode, two 128-byte blocks; with at least
   * 128, one block; with fewer the packet is refused.
   */
  function ParseRequestAuthLogin(d: seq<u8>): (r: Option<AuthLoginBlocks>)
    ensures r.Some? <==> |d| - 1 >= RSA_BLOCK
    ensures r.Some? ==> r.value.raw1 == d[1..1 + RSA_BLOCK]
    ensures r.Some? ==> (r.value.raw2.Some? <==> |d| - 1 >= 2 * RSA_BLOCK)
    ensures r.Some? && r.value.raw2.Some? ==> r.value.raw2.value == d[1 + RSA_BLOCK..1 + 2 * RSA_BLOCK]
  {
    if |d| - 1 >= 2 * RSA_BLOCK then Some(AuthLoginBlocks(d[1..1 + RSA_BLOCK], Some(d[1 + RSA_BLOCK..1 + 2 * RSA_BLOCK])))
    else if |d| - 1 >= RSA_BLOCK then Some(AuthLoginBlocks(d[1..1 + RSA_BLOCK], None))
    else None
  }

  /** The frame a client sends: the opcode, the blocks, and whatever follows them. */
  function AuthLoginBytes(b: AuthLoginBlocks, rest: seq<u8>): seq<u8>
  {
    [0x00] + b.raw1 + (if b.raw2.Some? then b.raw2.value else []) + rest
  }

  /**
   * Reading back the blocks a client wrote gives them back, provided the
   * one-block layout is not followed by another block's worth of bytes
   * (which would make it read as the two-block layout).
   */
  lemma AuthLoginReadBack(b: AuthLoginBlocks, rest: seq<u8>)
    requires |b.raw1| == RSA_BLOCK && (b.raw2.Some? ==> |b.raw2.value| == RSA_BLOCK)
    requires b.raw2.None? ==> |rest| < RSA_BLOCK
    ensures ParseRequestAuthLogin(AuthLoginBytes(b, rest)) == Some(b)
  {
    var d := AuthLoginBytes(b, rest);
    assert d[1..1 + RSA_BLOCK] == b.raw1;
    if b.raw2.Some? {
      assert d[1 + RSA_BLOCK..1 + 2 * RSA_BLOCK] == b.raw2.value;
    }
  }

  /** `readImpl` as the code runs it, on the packet's reader. */
  method ReadRequestAuthLogin(data: seq<u8>) returns (r: Option<AuthLoginBlocks>)
    ensures r == ParseRequestAuthLogin(data)
  {
    var rd := new Reader(data);
    if |rd.data| - rd.off >= 2 * RSA_BLOCK {
      var raw1 := rd.ReadB(RSA_BLOCK);
      var raw2 := rd.ReadB(RSA_BLOCK);
      return Some(AuthLoginBlocks(raw1.value, Some(raw2.value)));
    } else if |rd.data| - rd.off >= RSA_BLOCK {
      var raw1 := rd.ReadB(RSA_BLOCK);
      return Some(AuthLoginBlocks(raw1.value, None));
    }
    return None;
  }

  // ================================================================ RequestAuthLogin: credentials

  /** What `run` decodes from the deciphered blocks. `ncotp` is the bit pattern of the Java `int`. */
  datatype Credentials = Credentials(user: JString, password: JString, ncotp: bv32)

  /** A Java `byte` widened to `int`: the sign bit fills the upper 24 bits. */
  function SignExtend(b: bv8): bv32
  {
    if b < 0x80 then b as bv32 else (b as bv32) | 0xFFFF_FF00
  }

  /** Four bytes, each widened with its sign, shifted into place and or-ed together. */
  function OrWidened(b0: bv8, b1: bv8, b2: bv8, b3: bv8): bv32
  {
    SignExtend(b0) | (SignExtend(b1) << 8) | (SignExtend(b2) << 16) | (SignExtend(b3) << 24)
  }

  /** `_ncotp`: the four bytes at 0x7c, combined as `OrWidened` does. */
  function Ncotp(dec: seq<u8>): bv32
    requires |dec| >= 0x80
  {
    OrWidened(dec[0x7c] as bv8, dec[0x7d] as bv8, dec[0x7e] as bv8, dec[0x7f] as bv8)
  }

  /** The four bytes of an `int`, low byte first. */
  function IntBytes(x: bv32): seq<bv8>
  {
    [(x & 0xFF) as bv8, ((x >> 8) & 0xFF) as bv8, ((x >> 16) & 0xFF) as bv8, (x >> 24) as bv8]
  }

  /**
   * The one-time password is the little-endian `int` of bytes 0x7c..0x7f
   * only while the lower three are below 0x80: a byte with its top bit set
   * overwrites every byte above it with 0xFF.
   */
  lemma NcotpBytes(dec: seq<u8>)
    requires |dec| >= 0x80
    ensures IntBytes(Ncotp(dec))[0] == dec[0x7c] as bv8
    ensures IntBytes(Ncotp(dec))[1] == if dec[0x7c] >= 0x80 then 0xFF else dec[0x7d] as bv8
    ensures IntBytes(Ncotp(dec))[2] == if dec[0x7c] >= 0x80 || dec[0x7d] >= 0x80 then 0xFF else dec[0x7e] as bv8
    ensures IntBytes(Ncotp(dec))[3] ==
      if dec[0x7c] >= 0x80 || dec[0x7d] >= 0x80 || dec[0x7e] >= 0x80 then 0xFF else dec[0x7f] as bv8
  {
    var b0, b1, b2, b3 := dec[0x7c] as bv8, dec[0x7d] as bv8, dec[0x7e] as bv8, dec[0x7f] as bv8;
    OrWidenedByte0(b0, b1, b2, b3);
    OrWidenedByte1(b0, b1, b2, b3);
    OrWidenedByte2(b0, b1, b2, b3);
    OrWidenedByte3(b0, b1, b2, b3);
    HighBit(dec[0x7c]);
    HighBit(dec[0x7d]);
    HighBit(dec[0x7e]);
  }

  /** The low byte of `OrWidened` is always the first byte. */
  lemma OrWidenedByte0(b0: bv8, b1: bv8, b2: bv8, b3: bv8)
    ensures (OrWidened(b0, b1, b2, b3) & 0xFF) as bv8 == b0
  {
  }

  /** Each higher byte of `OrWidened` is 0xFF once a lower byte is negative. */
  lemma OrWidenedByte1(b0: bv8, b1: bv8, b2: bv8, b3: bv8)
    ensures ((OrWidened(b0, b1, b2, b3) >> 8) & 0xFF) as bv8 == if b0 >= 0x80 then 0xFF else b1
  {
  }

  lemma OrWidenedByte2(b0: bv8, b1: bv8, b2: bv8, b3: bv8)
    ensures ((OrWidened(b0, b1, b2, b3) >> 16) & 0xFF) as bv8 == if b0 >= 0x80 || b1 >= 0x80 then 0xFF else b2
  {
  }

  lemma OrWidenedByte3(b0: bv8, b1: bv8, b2: bv8, b3: bv8)
    ensures (OrWidened(b0, b1, b2, b3) >> 24) as bv8 == if b0 >= 0x80 || b1 >= 0x80 || b2 >= 0x80 then 0xFF else b3
  {
  }

  lemma HighBit(b: u8)
    ensures b >= 0x80 <==> (b as bv8) >= 0x80
  {
  }

  /**
   * `new String(bytes, off, len)` in the platform charset (`charset`), then
   * `trim()`; the user name is also lower-cased.
   */
  function UserAt(dec: seq<u8>, off: nat, charset: seq<u8> -> JString): JString
    requires off + 0xE <= |dec|
  {
    Lower(Trim(charset(dec[off..off + 0xE])))
  }

  function PasswordAt(dec: seq<u8>, off: nat, charset: seq<u8> -> JString): JString
    requires off + 0x10 <= |dec|
  {
    Trim(charset(dec[off..off + 0x10]))
  }

  /**
   * The second `try` of `RequestAuthLogin.run` on the deciphered blocks:
   * the two-block layout takes the user from 0x4E of the first block and
   * the password from 0x5C of the second; the one-block layout takes both
   * from the first block, at 0x5E and 0x6C. A block too short for a read
   * throws, which `run` swallows (`None`).
   */
  function DecodeCredentials(decUser: seq<u8>, decPass: Option<seq<u8>>, charset: seq<u8> -> JString): (r: Option<Credentials>)
    ensures r.Some? <==> |decUser| >= 0x80 && (decPass.Some? ==> |decPass.value| >= 0x6C)
    ensures r.Some? ==> r.value.ncotp == Ncotp(decUser)
    ensures r.Some? && decPass.Some? ==>
      r.value.user == UserAt(decUser, 0x4E, charset) && r.value.password == PasswordAt(decPass.value, 0x5C, charset)
    ensures r.Some? && decPass.None? ==>
      r.value.user == UserAt(decUser, 0x5E, charset) && r.value.password == PasswordAt(decUser, 0x6C, charset)
  {
    if |decUser| < 0x80 then None
    else match decPass
      case Some(p) =>
        if |p| < 0x6C then None
        else Some(Credentials(UserAt(decUser, 0x4E, charset), PasswordAt(p, 0x5C, charset), Ncotp(decUser)))
      case None =>
        Some(Credentials(UserAt(decUser, 0x5E, charset), PasswordAt(decUser, 0x6C, charset), Ncotp(decUser)))
  }

  /**
   * The decoded user name has no white space at either end and no
   * upper-case ASCII letter; the password has no white space at either end.
   */
  lemma CredentialsNormal(decUser: seq<u8>, decPass: Option<seq<u8>>, charset: seq<u8> -> JString)
    requires DecodeCredentials(decUser, decPass, charset).Some?
    ensures var c := DecodeCredentials(decUser, decPass, charset).value;
      Trim(c.user) == c.user && Lower(c.user) == c.user && Trim(c.password) == c.password
  {
    var off := if decPass.Some? then 0x4E else 0x5E;
    var pass := if decPass.Some? then decPass.value else decUser;
    var poff := if decPass.Some? then 0x5C else 0x6C;
    TrimNormal(charset(decUser[off..off + 0xE]));
    LowerIdempotent(Trim(charset(decUser[off..off + 0xE])));
    TrimNormal(charset(pass[poff..poff + 0x10]));
  }

  /**
   * The first `try` of `run`: both blocks go through the RSA decryption
   * (`rsa`, a `GeneralSecurityException` being `None`), then the
   * credentials are decoded.
   */
  datatype Decoded = RsaFailed | Malformed | Decoded(credentials: Credentials)

  function DecodeAuthLogin(b: AuthLoginBlocks, rsa: seq<u8> -> Option<seq<u8>>, charset: seq<u8> -> JString): (r: Decoded)
    ensures r.RsaFailed? <==> rsa(b.raw1).None? || (b.raw2.Some? && rsa(b.raw2.value).None?)
    ensures !r.RsaFailed? ==>
      var decPass := if b.raw2.Some? then Some(rsa(b.raw2.value).value) else None;
      match DecodeCredentials(rsa(b.raw1).value, decPass, charset)
      case Some(c) => r == Decoded(c)
      case None => r == Malformed
  {
    if rsa(b.raw1).None? then RsaFailed
    else if b.raw2.Some? && rsa(b.raw2.value).None? then RsaFailed
    else
      var decPass := if b.raw2.Some? then Some(rsa(b.raw2.value).value) else None;
      match DecodeCredentials(rsa(b.raw1).value, decPass, charset)
      case Some(c) => Decoded(c)
      case None => Malformed
  }

  // ================================================================ RequestAuthLogin: running

  /**
   * What `run` takes from outside the packet: `SHOW_LICENCE`, the RSA
   * decryption with the client's private key, the platform charset,
   * `hash` for the SHA-1 digest of the password in Base64, the clock, the
   * four `Rnd.nextInt()` values of a new session key, the table's
   * iteration order, and for the server list the subnet test and host
   * resolution.
   */
  datatype ClientEnv = ClientEnv(
    showLicence: bool,
    rsa: seq<u8> -> Option<seq<u8>>,
    charset: seq<u8> -> JString,
    hash: JString -> JString,
    now: int,
    draw: SessionKey,
    order: seq<int>,
    inSubnet: (JString, JString) -> bool,
    resolveHost: Option<JString> -> Option<IPv4>,
    resolve: JString -> Option<IPv4>)

  /**
   * The database's answers for one login: the `accounts` row selected by
   * that login, whether the automatic insert succeeded and the row read
   * after it, and the login's `accounts_ipauth` rows. The database is a
   * function from logins to these answers.
   */
  datatype AccountLookup = AccountLookup(
    found: Option<AccountRow>, insertOk: bool, foundAfterInsert: Option<AccountRow>, ipAuth: seq<IpAuthRow>)

  /** `order` lists every registered id exactly once: the table's iteration order. */
  predicate IterationOrder(table: GameServerTable, order: seq<int>)
    reads table
  {
    && (forall i :: 0 <= i < |order| ==> order[i] in table.gameServerTable)
    && (forall id :: id in table.gameServerTable ==> id in order)
    && (forall a, b :: 0 <= a < b < |order| ==> order[a] != order[b])
  }

  /** A client's claim and its session key were set together: an AUTHED_LOGIN client has a key. */
  predicate Keyed(client: L2LoginClient)
    reads client
  {
    client.state == AuthedLogin ==> client.sessionKey.Some?
  }

  /** `new ServerList(client)`: one record per registered server in iteration order, and the client's own data. */
  ghost predicate ListsServers(list: ServerListData, table: GameServerTable, client: L2LoginClient, env: ClientEnv)
    reads table, table.gameServerTable.Values, set g | g in table.gameServerTable.Values :: g.gst
    reads client`accessLevel, client`lastServer, client`charsOnServers, client`charsToDelete
  {
    && IterationOrder(table, env.order)
    && |list.servers| == |env.order|
    && (forall i :: 0 <= i < |env.order| ==>
          list.servers[i] == NewServerData(table.gameServerTable[env.order[i]], client.accessLevel,
                                           HostAddress(client.address), env.inSubnet, env.resolveHost))
    && list.lastServer == client.lastServer
    && list.charsOnServers == client.charsOnServers && list.charsToDelete == client.charsToDelete
  }

  /** The outcome of `RequestAuthLogin.run`. */
  datatype AuthLoginOutcome = Silent | NoAccount | CheckedIn(result: AuthLoginResult)

  /**
   * `RequestAuthLogin.run`. An RSA failure or a block too short for the
   * credentials ends it with nothing changed. Otherwise the account is
   * looked up, which may count a failure or ban the address; no account
   * closes the client with USER_OR_PASS_WRONG; and the check-in result is
   * answered by `AnswerCheckin`.
   */
  method RequestAuthLogin(b: AuthLoginBlocks, client: L2LoginClient, controller: LoginController,
                          env: ClientEnv, db: JString -> AccountLookup) returns (r: AuthLoginOutcome)
    requires controller.Valid() && IterationOrder(controller.gameServers, env.order)
    requires AuthedLinked(controller.gameServers.gameServerTable)
    modifies client`state, client`account, client`sessionKey, client`sent, client`closed
    modifies client`accessLevel, client`lastServer
    modifies controller`loginServerClients, controller`failedLoginAttemps, controller`bannedIps
    modifies controller.loginServerClients.Values`sent, controller.loginServerClients.Values`closed
    modifies (set g | g in controller.gameServers.gameServerTable.Values && g.gst != null :: g.gst)`kicked
    modifies Links(controller.gameServers.gameServerTable)`charsRequested
    ensures controller.Valid()
    ensures r == Silent <==> !DecodeAuthLogin(b, env.rsa, env.charset).Decoded?
    ensures r == Silent ==>
      && client.sent == old(client.sent) && client.closed == old(client.closed)
      && client.state == old(client.state) && controller.loginServerClients == old(controller.loginServerClients)
      && controller.failedLoginAttemps == old(controller.failedLoginAttemps) && controller.bannedIps == old(controller.bannedIps)
    ensures r != Silent ==>
      var c := DecodeAuthLogin(b, env.rsa, env.charset).credentials;
      Guard(controller.failedLoginAttemps, controller.bannedIps) ==
      Retrieve(controller.config, Guard(old(controller.failedLoginAttemps), old(controller.bannedIps)),
               client.address, env.now, env.hash(c.password),
               db(c.user).found, db(c.user).insertOk, db(c.user).foundAfterInsert).guard
    ensures r == NoAccount ==>
      && client.closed && client.sent == old(client.sent) + [SendLoginFail(UserOrPassWrong)]
      && client.state == old(client.state) && controller.loginServerClients == old(controller.loginServerClients)
    ensures r == CheckedIn(AuthSuccess) ==> client.state == AuthedLogin && client.sessionKey == Some(env.draw)
    ensures r != CheckedIn(AuthSuccess) ==> client.state == old(client.state) && client.sessionKey == old(client.sessionKey)
  {
    var d := DecodeAuthLogin(b, env.rsa, env.charset);
    if !d.Decoded? {
      return Silent;
    }
    r := CheckAccount(d.credentials.user, d.credentials.password, client, controller, env, db);
  }

  /**
   * The part of `run` after the credentials are decoded: the lookup of
   * the account the user names, with the password's hash, then the
   * check-in and its answer.
   */
  method CheckAccount(user: JString, password: JString, client: L2LoginClient, controller: LoginController,
                      env: ClientEnv, db: JString -> AccountLookup) returns (r: AuthLoginOutcome)
    requires controller.Valid() && IterationOrder(controller.gameServers, env.order)
    requires AuthedLinked(controller.gameServers.gameServerTable)
    modifies client`state, client`account, client`sessionKey, client`sent, client`closed
    modifies client`accessLevel, client`lastServer
    modifies controller`loginServerClients, controller`failedLoginAttemps, controller`bannedIps
    modifies controller.loginServerClients.Values`sent, controller.loginServerClients.Values`closed
    modifies (set g | g in controller.gameServers.gameServerTable.Values && g.gst != null :: g.gst)`kicked
    modifies Links(controller.gameServers.gameServerTable)`charsRequested
    ensures controller.Valid() && r != Silent
    ensures Guard(controller.failedLoginAttemps, controller.bannedIps) ==
      Retrieve(controller.config, Guard(old(controller.failedLoginAttemps), old(controller.bannedIps)),
               client.address, env.now, env.hash(password), db(user).found, db(user).insertOk, db(user).foundAfterInsert).guard
    ensures r == NoAccount <==>
      Retrieve(controller.config, Guard(old(controller.failedLoginAttemps), old(controller.bannedIps)),
               client.address, env.now, env.hash(password), db(user).found, db(user).insertOk, db(user).foundAfterInsert).info.None?
    ensures r == NoAccount ==>
      && client.closed && client.sent == old(client.sent) + [SendLoginFail(UserOrPassWrong)]
      && client.state == old(client.state) && controller.loginServerClients == old(controller.loginServerClients)
    ensures r == CheckedIn(AuthSuccess) ==> client.state == AuthedLogin && client.sessionKey == Some(env.draw)
    ensures r != CheckedIn(AuthSuccess) ==> client.state == old(client.state) && client.sessionKey == old(client.sessionKey)
  {
    var info := controller.RetriveAccountInfo(client.address, env.now, env.hash(password),
                                              db(user).found, db(user).insertOk, db(user).foundAfterInsert);
    if info.None? {
      client.Close(Some(SendLoginFail(UserOrPassWrong)));
      return NoAccount;
    }
    var result := CheckIn(info.value, client, controller, env, db);
    return CheckedIn(result);
  }

  /**
   * `tryCheckinAccount` for the account found, with the `accounts_ipauth`
   * rows of the account's own login, then the answer to its result.
   */
  method CheckIn(info: AccountInfo, client: L2LoginClient, controller: LoginController, env: ClientEnv,
                 db: JString -> AccountLookup)
    returns (result: AuthLoginResult)
    requires IterationOrder(controller.gameServers, env.order) && AuthedLinked(controller.gameServers.gameServerTable)
    modifies client`state, client`account, client`sessionKey, client`sent, client`closed
    modifies client`accessLevel, client`lastServer, controller`loginServerClients
    modifies controller.loginServerClients.Values`sent, controller.loginServerClients.Values`closed
    modifies (set g | g in controller.gameServers.gameServerTable.Values && g.gst != null :: g.gst)`kicked
    modifies Links(controller.gameServers.gameServerTable)`charsRequested
    ensures result == AuthSuccess ==> client.state == AuthedLogin && client.sessionKey == Some(env.draw)
    ensures result != AuthSuccess ==> client.state == old(client.state) && client.sessionKey == old(client.sessionKey)
  {
    result := controller.TryCheckinAccount(client, client.address, info, db(info.login).ipAuth, env.resolve, env.order);
    AnswerCheckin(result, info.login, client, controller, env);
  }

  /**
   * The `switch` of `RequestAuthLogin.run` on the check-in result.
   *
   * AUTH_SUCCESS: the client takes the account, moves to AUTHED_LOGIN and
   * gets a new session key (the claim is put again), then is sent LoginOk
   * with the key when the licence is shown, the server list otherwise.
   * INVALID_PASSWORD: closed with USER_OR_PASS_WRONG. ACCOUNT_BANNED:
   * closed with AccountKicked, PERMANENTLY_BANNED. ALREADY_ON_LS: the
   * client holding the claim, if any, is closed with ACCOUNT_IN_USE and the
   * claim dropped, then this client is closed the same way.
   * ALREADY_ON_GS: handled by `KickFromGameServer`.
   */
  method AnswerCheckin(result: AuthLoginResult, login: JString, client: L2LoginClient, controller: LoginController,
                       env: ClientEnv)
    requires IterationOrder(controller.gameServers, env.order) && AuthedLinked(controller.gameServers.gameServerTable)
    requires result == AuthSuccess ==> login in controller.loginServerClients
    modifies client`state, client`account, client`sessionKey, client`sent, client`closed
    modifies controller`loginServerClients
    modifies controller.loginServerClients.Values`sent, controller.loginServerClients.Values`closed
    modifies (set g | g in controller.gameServers.gameServerTable.Values && g.gst != null :: g.gst)`kicked
    modifies Links(controller.gameServers.gameServerTable)`charsRequested
    ensures result == AuthSuccess ==>
      && client.account == Some(login) && client.state == AuthedLogin && client.sessionKey == Some(env.draw)
      && controller.loginServerClients == old(controller.loginServerClients)[login := client]
      && client.closed == old(client.closed)
      && |client.sent| == |old(client.sent)| + 1 && client.sent[..|old(client.sent)|] == old(client.sent)
      && (env.showLicence ==> client.sent[|old(client.sent)|] == SendLoginOk(env.draw))
      && (!env.showLicence ==> client.sent[|old(client.sent)|].SendServerList?
                                && ListsServers(client.sent[|old(client.sent)|].list, controller.gameServers, client, env))
    ensures forall t :: t in Links(controller.gameServers.gameServerTable) ==>
      t.charsRequested ==
        old(t.charsRequested)
        + (if result == AuthSuccess then Repeat(login, AskedCount(controller.gameServers.gameServerTable, env.order, t)) else [])
    ensures result != AuthSuccess ==>
      client.state == old(client.state) && client.sessionKey == old(client.sessionKey) && client.account == old(client.account)
    ensures result == InvalidPassword ==>
      client.closed && client.sent == old(client.sent) + [SendLoginFail(UserOrPassWrong)]
    ensures result == AccountBanned ==>
      client.closed && client.sent == old(client.sent) + [SendAccountKicked(PermanentlyBanned)]
    ensures result == AlreadyOnLs ==>
      && client.closed
      && controller.loginServerClients == old(controller.loginServerClients) - {login}
      && (login in old(controller.loginServerClients) ==>
            var holder := old(controller.loginServerClients)[login];
            && holder.closed
            && (holder == client ==> client.sent == old(client.sent) + [SendLoginFail(AccountInUse), SendLoginFail(AccountInUse)])
            && (holder != client ==> holder.sent == old(holder.sent) + [SendLoginFail(AccountInUse)]
                                     && client.sent == old(client.sent) + [SendLoginFail(AccountInUse)]))
      && (login !in old(controller.loginServerClients) ==> client.sent == old(client.sent) + [SendLoginFail(AccountInUse)])
    ensures result != AuthSuccess && result != AlreadyOnLs ==>
      controller.loginServerClients == old(controller.loginServerClients)
    ensures result == AlreadyOnGs ==>
      && (AccountOnline(controller.gameServers.gameServerTable, login) ==>
            client.closed && client.sent == old(client.sent) + [SendLoginFail(AccountInUse)])
      && (!AccountOnline(controller.gameServers.gameServerTable, login) ==>
            client.closed == old(client.closed) && client.sent == old(client.sent))
  {
    match result
    case AuthSuccess =>
      Admit(login, client, controller, env);
    case InvalidPassword =>
      client.Close(Some(SendLoginFail(UserOrPassWrong)));
    case AccountBanned =>
      client.Close(Some(SendAccountKicked(PermanentlyBanned)));
    case AlreadyOnLs =>
      var holder := controller.GetAuthedClient(login);
      if holder != null {
        holder.Close(Some(SendLoginFail(AccountInUse)));
        controller.RemoveAuthedLoginClient(Some(login));
      }
      client.Close(Some(SendLoginFail(AccountInUse)));
    case AlreadyOnGs =>
      var _ := KickFromGameServer(login, client, controller, env.order);
  }

  /**
   * The AUTH_SUCCESS branch: account, state and session key; then every
   * authed game server is asked for the account's characters
   * (`getCharactersOnAccount`); then LoginOk or the server list.
   */
  method Admit(login: JString, client: L2LoginClient, controller: LoginController, env: ClientEnv)
    requires IterationOrder(controller.gameServers, env.order) && AuthedLinked(controller.gameServers.gameServerTable)
    modifies client`state, client`account, client`sessionKey, client`sent, controller`loginServerClients
    modifies Links(controller.gameServers.gameServerTable)`charsRequested
    ensures client.account == Some(login) && client.state == AuthedLogin && client.sessionKey == Some(env.draw)
    ensures controller.loginServerClients == old(controller.loginServerClients)[login := client]
    ensures forall t :: t in Links(controller.gameServers.gameServerTable) ==>
      t.charsRequested == old(t.charsRequested) + Repeat(login, AskedCount(controller.gameServers.gameServerTable, env.order, t))
    ensures |client.sent| == |old(client.sent)| + 1 && client.sent[..|old(client.sent)|] == old(client.sent)
    ensures env.showLicence ==> client.sent[|old(client.sent)|] == SendLoginOk(env.draw)
    ensures !env.showLicence ==> client.sent[|old(client.sent)|].SendServerList?
                                 && ListsServers(client.sent[|old(client.sent)|].list, controller.gameServers, client, env)
  {
    Claim(login, client, controller, env.draw);
    controller.GetCharactersOnAccount(login, env.order);
    Welcome(client, controller, env);
  }

  /** The client takes the account, moves to AUTHED_LOGIN and gets a new session key; the claim is put again. */
  method Claim(login: JString, client: L2LoginClient, controller: LoginController, draw: SessionKey)
    modifies client`state, client`account, client`sessionKey, controller`loginServerClients
    ensures client.account == Some(login) && client.state == AuthedLogin && client.sessionKey == Some(draw)
    ensures controller.loginServerClients == old(controller.loginServerClients)[login := client]
  {
    client.SetAccount(Some(login));
    client.SetState(AuthedLogin);
    var key := controller.AssignSessionKeyToClient(login, client, draw.loginOkID1, draw.loginOkID2,
                                                   draw.playOkID1, draw.playOkID2);
    client.SetSessionKey(Some(key));
  }

  /** The packet that ends AUTH_SUCCESS: LoginOk with the client's key, or the server list. */
  method Welcome(client: L2LoginClient, controller: LoginController, env: ClientEnv)
    requires IterationOrder(controller.gameServers, env.order) && client.sessionKey.Some?
    modifies client`sent
    ensures |client.sent| == |old(client.sent)| + 1 && client.sent[..|old(client.sent)|] == old(client.sent)
    ensures env.showLicence ==> client.sent[|old(client.sent)|] == SendLoginOk(client.sessionKey.value)
    ensures !env.showLicence ==> client.sent[|old(client.sent)|].SendServerList?
                                 && ListsServers(client.sent[|old(client.sent)|].list, controller.gameServers, client, env)
  {
    if env.showLicence {
      client.SendPacket(SendLoginOk(client.sessionKey.value));
    } else {
      var list := NewServerList(controller.gameServers, env.order, client.lastServer, client.accessLevel,
                                HostAddress(client.address), env.inSubnet, env.resolveHost,
                                client.charsOnServers, client.charsToDelete);
      assert ListsServers(list, controller.gameServers, client, env);
      client.SendPacket(SendServerList(list));
    }
  }

  /**
   * The ALREADY_ON_GS branch: the first entry (in iteration order) whose
   * connection has the account online; when there is one, the client is
   * closed with ACCOUNT_IN_USE and, if that server is authed, its
   * connection is told to kick the account.
   */
  method KickFromGameServer(login: JString, client: L2LoginClient, controller: LoginController, order: seq<int>)
    returns (holder: GameServerInfo?)
    requires IterationOrder(controller.gameServers, order)
    modifies client`sent, client`closed
    modifies (set g | g in controller.gameServers.gameServerTable.Values && g.gst != null :: g.gst)`kicked
    ensures holder == null <==> !AccountOnline(controller.gameServers.gameServerTable, login)
    ensures holder == null ==> client.sent == old(client.sent) && client.closed == old(client.closed)
    ensures holder != null ==>
      && holder in controller.gameServers.gameServerTable.Values && HoldsAccount(holder, login)
      && client.closed && client.sent == old(client.sent) + [SendLoginFail(AccountInUse)]
      && holder.gst.kicked == old(holder.gst.kicked) + (if holder.isAuthed then [login] else [])
  {
    holder := controller.GetAccountOnGameServer(login, order);
    if holder != null {
      client.Close(Some(SendLoginFail(AccountInUse)));
      if holder.isAuthed {
        holder.gst.KickPlayer(login);
      }
    }
  }

  // ================================================================ RequestServerLogin

  /** The fields of a `RequestServerLogin`: the login pair the client echoes and the chosen server. */
  datatype ServerLoginRequest = ServerLoginRequest(skey1: int, skey2: int, serverId: int)

  /**
   * `RequestServerLogin.readImpl`: with at least nine bytes after the
   * opcode, two `int`s and one unsigned byte; otherwise refused.
   */
  function ParseRequestServerLogin(d: seq<u8>): (r: Option<ServerLoginRequest>)
    ensures r.Some? <==> |d| - 1 >= 9
    ensures r.Some? ==> IsInt32(r.value.skey1) && IsInt32(r.value.skey2) && 0 <= r.value.serverId < 0x100
  {
    if |d| - 1 >= 9 then Some(ServerLoginRequest(I32At(d, 1), I32At(d, 5), d[9] as int)) else None
  }

  /** The frame a client sends for a `RequestServerLogin`. */
  function ServerLoginBytes(req: ServerLoginRequest, rest: seq<u8>): seq<u8>
    requires 0 <= req.serverId < 0x100
  {
    [0x02] + LE32(req.skey1) + LE32(req.skey2) + [req.serverId] + rest
  }

  /** Reading back a request the client wrote gives it back. */
  lemma ServerLoginReadBack(req: ServerLoginRequest, rest: seq<u8>)
    requires IsInt32(req.skey1) && IsInt32(req.skey2) && 0 <= req.serverId < 0x100
    ensures ParseRequestServerLogin(ServerLoginBytes(req, rest)) == Some(req)
  {
    var d := ServerLoginBytes(req, rest);
    I32RoundTrip(req.skey1);
    I32RoundTrip(req.skey2);
    assert d[1..5] == LE32(req.skey1);
    assert d[5..9] == LE32(req.skey2);
    assert I32At(d, 1) == I32At(LE32(req.skey1), 0);
    assert I32At(d, 5) == I32At(LE32(req.skey2), 0);
  }

  /** `readImpl` as the code runs it, on the packet's reader. */
  method ReadRequestServerLogin(data: seq<u8>) returns (r: Option<ServerLoginRequest>)
    ensures r == ParseRequestServerLogin(data)
  {
    var rd := new Reader(data);
    if |rd.data| - rd.off >= 9 {
      var skey1 := rd.ReadD();
      var skey2 := rd.ReadD();
      var serverId := rd.ReadC();
      return Some(ServerLoginRequest(skey1.value, skey2.value, serverId.value));
    }
    return None;
  }

  /**
   * `RequestServerLogin.run`. With the licence shown the echoed login pair
   * must match the client's key, else the client is closed with
   * ACCESS_FAILED; with the licence off the pair is not checked. Then, if
   * `isLoginPossible`, the client is marked as joining a game server and
   * sent PlayOk with its key; otherwise it is closed with SERVER_OVERLOADED.
   */
  method RequestServerLogin(req: ServerLoginRequest, client: L2LoginClient, controller: LoginController, showLicence: bool)
    requires client.sessionKey.Some?
    modifies client`joinedGS, client`sent, client`closed
    ensures var key := client.sessionKey.value;
      var paired := !showLicence || CheckLoginPair(key, req.skey1, req.skey2);
      var possible := LoginPossible(controller.gameServers.gameServerTable, req.serverId, client.accessLevel);
      && (!paired ==> client.closed && client.sent == old(client.sent) + [SendLoginFail(AccessFailed)])
      && (paired && possible ==> client.closed == old(client.closed) && client.sent == old(client.sent) + [SendPlayOk(key)])
      && (paired && !possible ==> client.closed && client.sent == old(client.sent) + [SendPlayFail(ServerOverloaded)])
      && (client.joinedGS <==> (paired && possible) || old(client.joinedGS))
  {
    var key := client.sessionKey.value;
    if !showLicence || CheckLoginPair(key, req.skey1, req.skey2) {
      var ok := controller.IsLoginPossible(client, req.serverId);
      if ok {
        client.SetJoinedGS(true);
        client.SendPacket(SendPlayOk(key));
      } else {
        client.Close(Some(SendPlayFail(ServerOverloaded)));
      }
    } else {
      client.Close(Some(SendLoginFail(AccessFailed)));
    }
  }

  // ================================================================ the handler

  /**
   * `handlePacket`, then the packet's `read` and, when that succeeds, its
   * `run`. An opcode the state does not accept, or a frame too short for
   * the packet, changes nothing. Of the packets modelled here only
   * `RequestAuthLogin` moves the state (to AUTHED_LOGIN, together with
   * the session key), and only `RequestServerLogin` marks the client as
   * joining a game server.
   */
  method HandlePacket(data: seq<u8>, client: L2LoginClient, controller: LoginController, env: ClientEnv,
                      db: JString -> AccountLookup)
    returns (p: Option<ClientPacket>)
    requires |data| >= 1 && controller.Valid() && IterationOrder(controller.gameServers, env.order) && Keyed(client)
    requires AuthedLinked(controller.gameServers.gameServerTable)
    modifies client`state, client`account, client`sessionKey, client`sent, client`closed
    modifies client`accessLevel, client`lastServer, client`joinedGS
    modifies controller`loginServerClients, controller`failedLoginAttemps, controller`bannedIps
    modifies controller.loginServerClients.Values`sent, controller.loginServerClients.Values`closed
    modifies (set g | g in controller.gameServers.gameServerTable.Values && g.gst != null :: g.gst)`kicked
    modifies Links(controller.gameServers.gameServerTable)`charsRequested
    ensures controller.Valid() && Keyed(client)
    ensures p == ClientDispatch(old(client.state), data[0])
    ensures p.None? ==>
      && client.sent == old(client.sent) && client.closed == old(client.closed) && client.state == old(client.state)
      && controller.loginServerClients == old(controller.loginServerClients)
    ensures client.state == old(client.state) || (p == Some(RequestAuthLoginPacket) && client.state == AuthedLogin)
    ensures client.joinedGS == old(client.joinedGS) || p == Some(RequestServerLoginPacket)
  {
    p := ClientDispatch(client.state, data[0]);
    if p == Some(RequestAuthLoginPacket) {
      var b := ReadRequestAuthLogin(data);
      if b.Some? {
        var _ := RequestAuthLogin(b.value, client, controller, env, db);
      }
    } else if p == Some(RequestServerLoginPacket) {
      var req := ReadRequestServerLogin(data);
      if req.Some? {
        RequestServerLogin(req.value, client, controller, env.showLicence);
      }
    }
  }
}
