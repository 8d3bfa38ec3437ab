/**
 * The login authority (login/LoginController.java) and the client
 * connection it tracks (login/network/L2LoginClient.java): the account
 * records read from the store (model/data/AccountInfo.java), the map of
 * accounts claimed by a connected client, the per-address failure counters
 * and the address ban table, and the five-way check-in decision.
 *
 * An `InetAddress` is an IPv4 address given by its four bytes; the store's
 * rows, the clock, the random numbers and host-name resolution are
 * parameters.
 */
module Login {
  import opened Wire
  import opened JavaText
  import opened Crypt
  import opened LoginCrypto
  import opened Registry
  import opened ServerPackets

  /** Time a client may stay on the login server before it must have entered a game server. */
  const LOGIN_TIMEOUT := 60 * 1000

  const DOT: JChar := 0x2E

  // ================================================================ account records

  /** An `AccountInfo`: the lower-cased login, the password hash, the access level and the last server. */
  datatype AccountInfo = AccountInfo(login: JString, passHash: JString, accessLevel: int, lastServer: int)

  /** `checkPassHash`: exact equality with the stored hash. */
  predicate CheckPassHash(info: AccountInfo, passHash: JString)
  {
    info.passHash == passHash
  }

  /**
   * `new AccountInfo(login, passHash, accessLevel, lastServer)`: a null or
   * empty login or hash throws; otherwise the login is stored lower-cased
   * and the other fields as given.
   */
  function NewAccountInfo(login: Option<JString>, passHash: Option<JString>, accessLevel: int, lastServer: int)
    : (r: Option<AccountInfo>)
    ensures r.Some? <==> login.Some? && login.value != [] && passHash.Some? && passHash.value != []
    ensures r.Some? ==> && r.value.login == Lower(login.value) && Lower(r.value.login) == r.value.login
                        && r.value.accessLevel == accessLevel && r.value.lastServer == lastServer
    ensures r.Some? ==> forall h :: CheckPassHash(r.value, h) <==> h == passHash.value
  {
    LowerIdempotentAll();
    if login.None? || passHash.None? || login.value == [] || passHash.value == [] then None
    else Some(AccountInfo(Lower(login.value), passHash.value, accessLevel, lastServer))
  }

  lemma LowerIdempotentAll()
    ensures forall s :: Lower(Lower(s)) == Lower(s)
  {
    forall s: JString ensures Lower(Lower(s)) == Lower(s) {
      LowerIdempotent(s);
    }
  }

  /** The result of `tryCheckinAccount`. */
  datatype AuthLoginResult = InvalidPassword | AccountBanned | AlreadyOnLs | AlreadyOnGs | AuthSuccess

  // ================================================================ addresses as text

  /** `getHostAddress`: the four bytes in decimal, separated by dots. */
  function HostAddress(a: IPv4): JString
  {
    Join([Decimal(a[0]), Decimal(a[1]), Decimal(a[2]), Decimal(a[3])], DOT)
  }

  /**
   * The loop of `isValidIPAddress` over the parts, in order: a part that is
   * not a number throws (`None`), a number outside 0..255 answers false.
   */
  function PartsValid(parts: seq<JString>): Option<bool>
  {
    if parts == [] then Some(true)
    else match ParseInt(parts[0])
      case None => None
      case Some(i) => if i < 0 || i > 255 then Some(false) else PartsValid(parts[1..])
  }

  /**
   * `isValidIPAddress(ipAddress)`: exactly four dot-separated parts, each
   * a number in 0..255; `None` is the `NumberFormatException` that escapes
   * when a part is reached that is not a number.
   */
  function ValidIp(ipAddress: JString): Option<bool>
  {
    var parts := SplitChar(ipAddress, DOT);
    if |parts| != 4 then Some(false) else PartsValid(parts)
  }

  /** A part reads as a byte value. */
  predicate IsBytePart(p: JString)
  {
    ParseInt(p).Some? && 0 <= ParseInt(p).value <= 255
  }

  /** The loop answers true exactly when every part reads as a byte value. */
  lemma {:induction false} PartsValidTrue(parts: seq<JString>)
    ensures PartsValid(parts) == Some(true) <==> forall k :: 0 <= k < |parts| ==> IsBytePart(parts[k])
  {
    if parts != [] {
      PartsValidTrue(parts[1..]);
      if forall k :: 0 <= k < |parts| ==> IsBytePart(parts[k]) {
        assert forall k :: 0 <= k < |parts| - 1 ==> IsBytePart(parts[1..][k]) by {
          forall k | 0 <= k < |parts| - 1 ensures IsBytePart(parts[1..][k]) {
            assert parts[1..][k] == parts[k + 1];
          }
        }
      }
      if PartsValid(parts) == Some(true) {
        forall k | 0 <= k < |parts| ensures IsBytePart(parts[k]) {
          if k > 0 {
            assert parts[k] == parts[1..][k - 1];
          }
        }
      }
    }
  }

  /** `isValidIPAddress` is true iff there are exactly four parts, each a number in 0..255. */
  lemma ValidIpTrue(ipAddress: JString)
    ensures var parts := SplitChar(ipAddress, DOT);
      ValidIp(ipAddress) == Some(true) <==> |parts| == 4 && forall k :: 0 <= k < 4 ==> IsBytePart(parts[k])
  {
    PartsValidTrue(SplitChar(ipAddress, DOT));
  }

  /** A piece before a separator it does not contain is split off whole. */
  lemma PiecesCons(p: JString, c: JChar, rest: JString)
    requires c !in p
    ensures Pieces(p + [c] + rest, c) == [p] + Pieces(rest, c)
  {
    var s := p + [c] + rest;
    assert s[|p|] == c;
    assert IndexOf(s, c) == |p|;
    assert s[..|p|] == p && s[|p| + 1..] == rest;
  }

  /** A number's decimal digits contain no dot. */
  lemma DecimalNoDot(n: nat)
    ensures DOT !in Decimal(n)
  {
    var d := Decimal(n);
    forall k | 0 <= k < |d| ensures d[k] != DOT {
      assert IsAsciiDigit(d[k]);
    }
  }

  /** Pieces free of the separator, joined with it, split back into themselves. */
  lemma {:induction false} PiecesOfJoin(ps: seq<JString>, c: JChar)
    requires |ps| >= 1 && forall k :: 0 <= k < |ps| ==> c !in ps[k]
    ensures Pieces(Join(ps, c), c) == ps
    decreases |ps|
  {
    if |ps| == 1 {
      assert IndexOf(ps[0], c) == -1;
    } else {
      PiecesOfJoin(ps[1..], c);
      PiecesCons(ps[0], c, Join(ps[1..], c));
    }
  }

  /** The printed address splits back into its four decimal parts. */
  lemma HostAddressParts(a: IPv4)
    ensures SplitChar(HostAddress(a), DOT) == [Decimal(a[0]), Decimal(a[1]), Decimal(a[2]), Decimal(a[3])]
  {
    var ps := [Decimal(a[0]), Decimal(a[1]), Decimal(a[2]), Decimal(a[3])];
    forall k | 0 <= k < 4 ensures DOT !in ps[k] {
      DecimalNoDot(a[k]);
    }
    PiecesOfJoin(ps, DOT);
    var s := HostAddress(a);
    assert s[|ps[0]|] == DOT;
    assert ps[3] != [];
    assert DropTrailingEmpty(ps) == ps;
  }

  /** Every printed address is a valid address. */
  lemma HostAddressValid(a: IPv4)
    ensures ValidIp(HostAddress(a)) == Some(true)
  {
    HostAddressParts(a);
    var parts := SplitChar(HostAddress(a), DOT);
    forall k | 0 <= k < 4 ensures IsBytePart(parts[k]) {
      DecimalRoundTrip(a[k], -0x8000_0000, 0x7FFF_FFFF);
    }
    ValidIpTrue(HostAddress(a));
  }

  /**
   * `isValidIPAddress` as written: the split, the count check and the loop
   * over the parts, which stops at the first part out of range.
   */
  method IsValidIPAddress(ipAddress: JString) returns (r: Option<bool>)
    ensures r == ValidIp(ipAddress)
  {
    var parts := SplitChar(ipAddress, DOT);
    if |parts| != 4 {
      return Some(false);
    }
    var k := 0;
    while k < |parts|
      invariant 0 <= k <= |parts|
      invariant PartsValid(parts) == PartsValid(parts[k..])
    {
      var i := ParseInt(parts[k]);
      if i.None? {
        return None;
      }
      if i.value < 0 || i.value > 255 {
        return Some(false);
      }
      assert parts[k..][1..] == parts[k + 1..];
      k := k + 1;
    }
    return Some(true);
  }

  // ================================================================ bans

  /**
   * A key of the ban table. The table is keyed by `InetAddress`, but some
   * lookups and removals use a `String`; such a key never equals an
   * address, so it has a case of its own.
   */
  datatype BanKey = ByAddress(addr: IPv4) | ByText(text: JString)

  /** Every key the table holds is an address: all insertions go through `InetAddress`. */
  ghost predicate AddressKeysOnly(bans: map<BanKey, int>)
  {
    forall k :: k in bans ==> k.ByAddress?
  }

  /** The three wildcard keys `isBannedAddress` tries after the exact address: x.y.z.0, x.y.0.0, x.0.0.0. */
  function WildcardKeys(parts: seq<JString>): (r: seq<BanKey>)
    requires |parts| >= 3
    ensures |r| == 3 && forall k :: 0 <= k < 3 ==> r[k].ByText?
  {
    [ ByText(parts[0] + [DOT] + parts[1] + [DOT] + parts[2] + Lit(".0")),
      ByText(parts[0] + [DOT] + parts[1] + Lit(".0.0")),
      ByText(parts[0] + Lit(".0.0.0")) ]
  }

  /** The first entry found among the keys, in order. */
  function FirstHit(bans: map<BanKey, int>, keys: seq<BanKey>): (r: Option<int>)
    ensures r.None? <==> forall k :: 0 <= k < |keys| ==> keys[k] !in bans
  {
    if keys == [] then None
    else if keys[0] in bans then Some(bans[keys[0]])
    else
      var r := FirstHit(bans, keys[1..]);
      assert forall k :: 1 <= k < |keys| ==> keys[k] == keys[1..][k - 1];
      r
  }

  /** The entry `isBannedAddress` finds for an address: the exact address first, then the wildcards. */
  function BanLookup(bans: map<BanKey, int>, a: IPv4): Option<int>
  {
    HostAddressParts(a);
    FirstHit(bans, [ByAddress(a)] + WildcardKeys(SplitChar(HostAddress(a), DOT)))
  }

  /** In a table of address keys only the exact address can be found: the wildcard lookups always miss. */
  lemma BanLookupExact(bans: map<BanKey, int>, a: IPv4)
    requires AddressKeysOnly(bans)
    ensures BanLookup(bans, a) == if ByAddress(a) in bans then Some(bans[ByAddress(a)]) else None
  {
    HostAddressParts(a);
    var keys := [ByAddress(a)] + WildcardKeys(SplitChar(HostAddress(a), DOT));
    if ByAddress(a) !in bans {
      forall k | 0 <= k < |keys| ensures keys[k] !in bans {
        if k > 0 {
          assert keys[k].ByText?;
        }
      }
    }
  }

  /**
   * An expired entry found under a wildcard key is not removed: the
   * removal targets the exact address, so the next lookup finds the same
   * entry again.
   */
  lemma ExpiredWildcardStays(bans: map<BanKey, int>, a: IPv4)
    requires ByAddress(a) !in bans && BanLookup(bans, a).Some?
    ensures BanLookup(bans - {ByAddress(a)}, a) == BanLookup(bans, a)
  {
    assert bans - {ByAddress(a)} == bans;
  }

  // ================================================================ failure counting

  /** The configuration the controller reads: attempts before a ban, ban length in seconds, and account creation. */
  datatype LoginConfig = LoginConfig(loginTryBeforeBan: int, loginBlockAfterBan: int, autoCreateAccounts: bool)

  /** `LoginTryBeforeBan = 5`, `LoginBlockAfterBan = 900`, `AutoCreateAccounts = true`. */
  const DEFAULT_LOGIN_CONFIG := LoginConfig(5, 900, true)

  /** The failure counters and the ban table together. */
  datatype Guard = Guard(failed: map<IPv4, int>, bans: map<BanKey, int>)

  /** The expiry a failure ban gets: `now + LOGIN_BLOCK_AFTER_BAN * 1000`, an `int` product added to a `long`. */
  function FailureBanExpiry(cfg: LoginConfig, now: int): int
  {
    Wrap64(now + Wrap32(cfg.loginBlockAfterBan * 1000))
  }

  /**
   * `recordFailedLoginAttemp(addr)` on the counters and the table: one
   * more failure; at the threshold the address is banned (unless it
   * already has an entry) and its counter is dropped.
   */
  function Failure(cfg: LoginConfig, g: Guard, addr: IPv4, now: int): Guard
  {
    var n := if addr in g.failed then g.failed[addr] + 1 else 1;
    if n >= cfg.loginTryBeforeBan then
      var bans := if ByAddress(addr) in g.bans then g.bans else g.bans[ByAddress(addr) := FailureBanExpiry(cfg, now)];
      Guard(g.failed - {addr}, bans)
    else Guard(g.failed[addr := n], g.bans)
  }

  /** `k` failures from one address at the same instant. */
  function Failures(cfg: LoginConfig, g: Guard, addr: IPv4, now: int, k: nat): Guard
  {
    if k == 0 then g else Failure(cfg, Failures(cfg, g, addr, now, k - 1), addr, now)
  }

  /** Below the threshold, `k` failures from a fresh address count `k` and ban nobody. */
  lemma {:induction false} FailuresCount(cfg: LoginConfig, g: Guard, addr: IPv4, now: int, k: nat)
    requires addr !in g.failed && 0 < k < cfg.loginTryBeforeBan
    ensures Failures(cfg, g, addr, now, k) == Guard(g.failed[addr := k], g.bans)
  {
    if k > 1 {
      FailuresCount(cfg, g, addr, now, k - 1);
    }
  }

  /**
   * The threshold-th failure from a fresh, unbanned address bans it for
   * `LOGIN_BLOCK_AFTER_BAN` seconds and clears its counter, so it starts
   * over once the ban ends.
   */
  lemma FailuresBan(cfg: LoginConfig, g: Guard, addr: IPv4, now: int)
    requires addr !in g.failed && ByAddress(addr) !in g.bans && cfg.loginTryBeforeBan >= 1
    ensures Failures(cfg, g, addr, now, cfg.loginTryBeforeBan)
         == Guard(g.failed, g.bans[ByAddress(addr) := FailureBanExpiry(cfg, now)])
  {
    var t := cfg.loginTryBeforeBan;
    if t > 1 {
      FailuresCount(cfg, g, addr, now, t - 1);
    }
    assert g.failed[addr := t - 1] - {addr} == g.failed;
    assert g.failed - {addr} == g.failed;
  }

  // ================================================================ check-in lists

  /** One row of the address authorisation table: an address text and its kind. */
  datatype IpAuthRow = IpAuthRow(ip: JString, kind: JString)

  /** The allow and deny lists read so far. */
  datatype IpLists = IpLists(allow: seq<IPv4>, deny: seq<IPv4>)

  /**
   * One row of the loop in `canCheckin`: an invalid address is skipped,
   * "allow" and "deny" rows add the resolved address to their list, other
   * kinds are skipped. `None` is an exception (a part that is not a number,
   * or an address that does not resolve), which aborts the check-in.
   */
  function AddRow(lists: IpLists, row: IpAuthRow, resolve: JString -> Option<IPv4>): Option<IpLists>
  {
    match ValidIp(row.ip)
    case None => None
    case Some(valid) =>
      if !valid then Some(lists)
      else if row.kind == Lit("allow") then
        (match resolve(row.ip) case None => None case Some(a) => Some(IpLists(lists.allow + [a], lists.deny)))
      else if row.kind == Lit("deny") then
        (match resolve(row.ip) case None => None case Some(a) => Some(IpLists(lists.allow, lists.deny + [a])))
      else Some(lists)
  }

  /** The lists after all rows, or `None` if a row threw. */
  function ReadLists(rows: seq<IpAuthRow>, resolve: JString -> Option<IPv4>): Option<IpLists>
  {
    if rows == [] then Some(IpLists([], []))
    else match ReadLists(rows[..|rows| - 1], resolve)
      case None => None
      case Some(lists) => AddRow(lists, rows[|rows| - 1], resolve)
  }

  /** The list rule: a non-empty allow list must hold the address, and a non-empty deny list must not. */
  predicate ListsAdmit(lists: IpLists, address: IPv4)
  {
    !(|lists.allow| > 0 && address !in lists.allow) && !(|lists.deny| > 0 && address in lists.deny)
  }

  /** Without rows of either kind every address is admitted; an address on the deny list never is. */
  lemma ListsAdmitCases(lists: IpLists, address: IPv4)
    ensures lists.allow == [] && lists.deny == [] ==> ListsAdmit(lists, address)
    ensures address in lists.deny ==> !ListsAdmit(lists, address)
    ensures |lists.allow| > 0 ==> (ListsAdmit(lists, address) ==> address in lists.allow)
  {
  }

  /** Whether `canCheckin` lets the account in: the rows were read without an exception and the list rule holds. */
  predicate CheckinAllowed(rows: seq<IpAuthRow>, resolve: JString -> Option<IPv4>, address: IPv4)
  {
    ReadLists(rows, resolve).Some? && ListsAdmit(ReadLists(rows, resolve).value, address)
  }

  // ================================================================ the guard invariant

  /**
   * What the controller keeps true of its counters and its table: only
   * address keys are ever inserted, and a counter that reaches the
   * threshold is dropped at once, so every stored count lies below it.
   */
  ghost predicate GuardValid(cfg: LoginConfig, g: Guard)
  {
    AddressKeysOnly(g.bans)
    && forall a :: a in g.failed ==> 1 <= g.failed[a] < cfg.loginTryBeforeBan
  }

  /** A failure keeps the invariant: its counter is below the threshold or gone, and the ban key is an address. */
  lemma FailureKeepsGuard(cfg: LoginConfig, g: Guard, addr: IPv4, now: int)
    requires GuardValid(cfg, g)
    ensures GuardValid(cfg, Failure(cfg, g, addr, now))
  {
    var g' := Failure(cfg, g, addr, now);
    forall k | k in g'.bans ensures k.ByAddress? {
      if k != ByAddress(addr) {
        assert k in g.bans;
      }
    }
  }

  // ================================================================ account lookup

  /** The row `USER_INFO_SELECT` returns: login and hash as stored (possibly null), access level and last server. */
  datatype AccountRow = AccountRow(login: Option<JString>, password: Option<JString>, accessLevel: int, lastServer: int)

  /** What `retriveAccountInfo` returns, with the counters and the table after it. */
  datatype Retrieved = Retrieved(info: Option<AccountInfo>, guard: Guard)

  /**
   * The part of `retriveAccountInfo` after a row was found: a row the
   * `AccountInfo` constructor rejects is an exception, answered with null
   * and nothing recorded; a wrong hash is a failure; a right one clears
   * the address's counter.
   */
  function CheckRow(cfg: LoginConfig, g: Guard, addr: IPv4, now: int, row: AccountRow, passHash: JString): (r: Retrieved)
    ensures r.info.Some? ==> CheckPassHash(r.info.value, passHash) && addr !in r.guard.failed && r.guard.bans == g.bans
  {
    match NewAccountInfo(row.login, row.password, row.accessLevel, row.lastServer)
    case None => Retrieved(None, g)
    case Some(info) =>
      if !CheckPassHash(info, passHash) then Retrieved(None, Failure(cfg, g, addr, now))
      else Retrieved(Some(info), Guard(g.failed - {addr}, g.bans))
  }

  /**
   * `retriveAccountInfo(addr, login, password)`: `passHash` is the Base64
   * SHA-1 digest of the password, `found` the row of the first query,
   * `insertOk` whether the creating insert succeeded and `foundAfterInsert`
   * the row of the second query, which runs with account creation off.
   */
  function Retrieve(cfg: LoginConfig, g: Guard, addr: IPv4, now: int, passHash: JString,
                    found: Option<AccountRow>, insertOk: bool, foundAfterInsert: Option<AccountRow>): (r: Retrieved)
    ensures r.info.Some? ==> CheckPassHash(r.info.value, passHash) && addr !in r.guard.failed && r.guard.bans == g.bans
    ensures r.info.None? ==> r.guard == g || r.guard == Failure(cfg, g, addr, now)
  {
    if found.Some? then CheckRow(cfg, g, addr, now, found.value, passHash)
    else if !cfg.autoCreateAccounts then Retrieved(None, Failure(cfg, g, addr, now))
    else if !insertOk then Retrieved(None, g)
    else if foundAfterInsert.None? then Retrieved(None, Failure(cfg, g, addr, now))
    else CheckRow(cfg, g, addr, now, foundAfterInsert.value, passHash)
  }

  /** A stored account with a different hash is refused and counted as a failure. */
  lemma RetrieveWrongPassword(cfg: LoginConfig, g: Guard, addr: IPv4, now: int, passHash: JString,
                              row: AccountRow, insertOk: bool, foundAfterInsert: Option<AccountRow>)
    requires NewAccountInfo(row.login, row.password, row.accessLevel, row.lastServer).Some?
    requires row.password.value != passHash
    ensures Retrieve(cfg, g, addr, now, passHash, Some(row), insertOk, foundAfterInsert)
         == Retrieved(None, Failure(cfg, g, addr, now))
  {
  }

  /** An unknown login with account creation off is refused and counted as a failure. */
  lemma RetrieveUnknownNoCreate(cfg: LoginConfig, g: Guard, addr: IPv4, now: int, passHash: JString,
                                insertOk: bool, foundAfterInsert: Option<AccountRow>)
    requires !cfg.autoCreateAccounts
    ensures Retrieve(cfg, g, addr, now, passHash, None, insertOk, foundAfterInsert)
         == Retrieved(None, Failure(cfg, g, addr, now))
  {
  }

  // ================================================================ the client

  /** `L2LoginClient.LoginClientState`. */
  datatype LoginClientState = ClientConnected | AuthedGG | AuthedLogin

  /**
   * One login client connection. `sent` holds the packets handed to the
   * connection, in order, and `closed` records that it was closed.
   */
  class L2LoginClient {
    const address: IPv4
    var state: LoginClientState
    const loginCrypt: LoginCrypt
    const blowfishKey: seq<u8>
    const sessionId: int
    const connectionStartTime: int
    var account: Option<JString>
    var accessLevel: int
    var lastServer: int
    var sessionKey: Option<SessionKey>
    var joinedGS: bool
    var charsOnServers: Option<map<int, int>>
    var charsToDelete: Option<map<int, seq<int>>>
    var sent: seq<ServerPacket>
    var closed: bool

    /** The frame cipher is keyed with the client's Blowfish key. */
    ghost predicate Valid()
      reads this, loginCrypt
    {
      loginCrypt.Valid() && loginCrypt.crypt != null && loginCrypt.crypt.key == blowfishKey
    }

    /**
     * A new connection from `address` at time `now`, with `sessionId` from
     * `Rnd.nextInt()` and one of the controller's Blowfish keys: state
     * CONNECTED and a frame cipher keyed with that key, still on its
     * static first frame.
     */
    constructor (address: IPv4, now: int, sessionId: int, blowfish: BlockCipher, blowfishKey: seq<u8>)
      ensures Valid() && fresh(loginCrypt) && loginCrypt.isStatic
      ensures this.address == address && this.sessionId == sessionId && connectionStartTime == now
      ensures this.blowfishKey == blowfishKey && state == ClientConnected
      ensures account == None && sessionKey == None && !joinedGS
      ensures charsOnServers == None && charsToDelete == None && sent == [] && !closed
    {
      this.address := address;
      this.sessionId := sessionId;
      connectionStartTime := now;
      this.blowfishKey := blowfishKey;
      state := ClientConnected;
      account := None;
      accessLevel := 0;
      lastServer := 0;
      sessionKey := None;
      joinedGS := false;
      charsOnServers := None;
      charsToDelete := None;
      sent := [];
      closed := false;
      var crypt := new LoginCrypt(blowfish);
      loginCrypt := crypt;
      new;
      crypt.SetKey(blowfishKey);
    }

    /**
     * `decrypt(buf, size)` with the buffer's position: true when the frame
     * deciphers with a good checksum; a bad checksum or an exception from
     * the cipher closes the connection without a packet.
     */
    method Decrypt(raw: array<u8>, position: nat, size: int) returns (ok: bool)
      requires Valid() && position <= raw.Length
      modifies raw, this`closed
      ensures closed == (old(closed) || !ok) && sent == old(sent)
      ensures size % 8 != 0 || position + size > raw.Length ==> !ok && raw[..] == old(raw[..])
      ensures size % 8 == 0 && position + size <= raw.Length ==>
        && LoopEnd(position, position + size, 8) <= raw.Length
        && raw[..] == Ecb(loginCrypt.blowfish.decrypt, blowfishKey, old(raw[..]), position, position + size)
        && (size > 4 ==> ChecksumFits(position, size, raw.Length))
        && ok == ChecksumOk(raw[..], position, size)
    {
      var r := loginCrypt.Decrypt(raw, position, size);
      ok := r == Done(true);
      if !ok {
        closed := true;
      }
    }

    /**
     * `encrypt(buf, size)` with the buffer's position and `seed` for
     * `Rnd.nextInt()`: on success the new position is past the padded frame;
     * a frame that does not fit answers false.
     */
    method Encrypt(raw: array<u8>, position: nat, size: nat, seed: int) returns (ok: bool, newPosition: int)
      requires Valid() && IsInt32(seed)
      modifies loginCrypt, raw
      ensures Valid()
      ensures var n := PaddedSize(size, old(loginCrypt.isStatic));
        && (ok <==> position + n <= raw.Length)
        && (ok ==> newPosition == position + n && !loginCrypt.isStatic)
        && (!ok ==> raw[..] == old(raw[..]) && loginCrypt.isStatic == old(loginCrypt.isStatic))
        && (ok && old(loginCrypt.isStatic) ==> raw[..] == StaticFrame(loginCrypt.blowfish, old(raw[..]), position, n, seed))
        && (ok && !old(loginCrypt.isStatic) ==> raw[..] == DynamicFrame(loginCrypt.blowfish, blowfishKey, old(raw[..]), position, n))
    {
      var r := loginCrypt.Encrypt(raw, position, size, seed);
      if r.Thrown? {
        return false, position;
      }
      return true, position + r.value;
    }

    /** `setState`. */
    method SetState(state: LoginClientState)
      modifies this`state
      ensures this.state == state
    {
      this.state := state;
    }

    /** `setAccount`. */
    method SetAccount(account: Option<JString>)
      modifies this`account
      ensures this.account == account
    {
      this.account := account;
    }

    /** `setSessionKey`. */
    method SetSessionKey(key: Option<SessionKey>)
      modifies this`sessionKey
      ensures sessionKey == key
    {
      sessionKey := key;
    }

    /** `setJoinedGS`. */
    method SetJoinedGS(val: bool)
      modifies this`joinedGS
      ensures joinedGS == val
    {
      joinedGS := val;
    }

    /** `sendPacket`. */
    method SendPacket(packet: ServerPacket)
      modifies this`sent
      ensures sent == old(sent) + [packet]
    {
      sent := sent + [packet];
    }

    /** `close(packet)`: the packet, if any, is the last one sent; then the connection closes. */
    method Close(packet: Option<ServerPacket>)
      modifies this`sent, this`closed
      ensures closed
      ensures sent == old(sent) + (if packet.Some? then [packet.value] else [])
    {
      if packet.Some? {
        sent := sent + [packet.value];
      }
      closed := true;
    }

    /** `setCharsOnServ(servId, chars)`: the map is created on first use; the entry is overwritten. */
    method SetCharsOnServ(servId: int, chars: int)
      modifies this`charsOnServers
      ensures charsOnServers == Some((if old(charsOnServers).Some? then old(charsOnServers).value else map[])[servId := chars])
    {
      var m := if charsOnServers.Some? then charsOnServers.value else map[];
      charsOnServers := Some(m[servId := chars]);
    }

    /** `serCharsWaitingDelOnServ(servId, charsToDel)`: the same, for the deletion times. */
    method SerCharsWaitingDelOnServ(servId: int, charsToDel: seq<int>)
      modifies this`charsToDelete
      ensures charsToDelete == Some((if old(charsToDelete).Some? then old(charsToDelete).value else map[])[servId := charsToDel])
    {
      var m := if charsToDelete.Some? then charsToDelete.value else map[];
      charsToDelete := Some(m[servId := charsToDel]);
    }

    /**
     * `onDisconnection()` at time `now`: the account's claim is dropped
     * unless the client moved on to a game server within the login timeout.
     */
    method OnDisconnection(controller: LoginController, now: int)
      modifies controller`loginServerClients
      ensures var drop := !joinedGS || Wrap64(connectionStartTime + LOGIN_TIMEOUT) < now;
        controller.loginServerClients ==
          if drop && account.Some? then old(controller.loginServerClients) - {account.value}
          else old(controller.loginServerClients)
    {
      if !joinedGS || Wrap64(connectionStartTime + LOGIN_TIMEOUT) < now {
        controller.RemoveAuthedLoginClient(account);
      }
    }
  }

  // ================================================================ the controller

  /** A game server entry whose connection has `account` online. */
  predicate HoldsAccount(g: GameServerInfo, account: JString)
    reads g, g.gst
  {
    g.gst != null && account in g.gst.accountsOnGameServer
  }

  /**
   * Every authed entry has a connection: `attachGameServerInfo` sets the
   * two together and `setDown` clears them together.
   */
  predicate AuthedLinked(table: map<int, GameServerInfo>)
    reads table.Values
  {
    forall g :: g in table.Values && g.isAuthed ==> g.gst != null
  }

  /** The connections of the table's entries. */
  function Links(table: map<int, GameServerInfo>): set<GameServerThread>
    reads table.Values
  {
    set g | g in table.Values && g.gst != null :: g.gst
  }

  /** No connection serves two entries. */
  ghost predicate DistinctLinks(table: map<int, GameServerInfo>)
    reads table.Values
  {
    forall a, b :: a in table && b in table && a != b && table[a].gst != null ==> table[a].gst != table[b].gst
  }

  /** How many entries at the positions of `order` are authed with connection `t`. */
  function AskedCount(table: map<int, GameServerInfo>, order: seq<int>, t: GameServerThread): (n: nat)
    requires forall i :: 0 <= i < |order| ==> order[i] in table
    reads table.Values
    ensures n <= |order|
  {
    if |order| == 0 then 0
    else
      var g := table[order[|order| - 1]];
      AskedCount(table, order[..|order| - 1], t) + (if g.isAuthed && g.gst == t then 1 else 0)
  }

  /** Listing one more id adds its entry's request, if any. */
  lemma AskedStep(table: map<int, GameServerInfo>, order: seq<int>, k: int)
    requires forall i :: 0 <= i < |order| ==> order[i] in table
    requires 0 <= k < |order|
    ensures forall t :: AskedCount(table, order[..k + 1], t) ==
                        AskedCount(table, order[..k], t) + (if table[order[k]].isAuthed && table[order[k]].gst == t then 1 else 0)
  {
    assert order[..k + 1][..k] == order[..k];
  }

  /** `n` copies of an account name. */
  function Repeat(account: JString, n: nat): (r: seq<JString>)
    ensures |r| == n && forall i :: 0 <= i < n ==> r[i] == account
  {
    seq(n, _ => account)
  }

  /**
   * When each id occurs once in `order` and no connection serves two
   * entries, an entry's connection is asked once if the entry is listed
   * and authed, and never otherwise.
   */
  lemma {:induction false} AskedOnce(table: map<int, GameServerInfo>, order: seq<int>, id: int)
    requires forall i :: 0 <= i < |order| ==> order[i] in table
    requires forall a, b :: 0 <= a < b < |order| ==> order[a] != order[b]
    requires DistinctLinks(table) && id in table && table[id].gst != null
    ensures AskedCount(table, order, table[id].gst) == if id in order && table[id].isAuthed then 1 else 0
    decreases |order|
  {
    if |order| > 0 {
      var init := order[..|order| - 1];
      var last := order[|order| - 1];
      AskedOnce(table, init, id);
      assert order == init + [last];
      if last == id {
        assert id !in init by {
          forall a | 0 <= a < |init| ensures init[a] != id {
            assert init[a] == order[a];
          }
        }
      } else {
        assert table[last].gst != table[id].gst;
      }
    }
  }

  /** A connection that serves no entry is never asked. */
  lemma {:induction false} AskedNone(table: map<int, GameServerInfo>, order: seq<int>, t: GameServerThread)
    requires forall i :: 0 <= i < |order| ==> order[i] in table
    requires forall id :: id in table ==> table[id].gst != t
    ensures AskedCount(table, order, t) == 0
    decreases |order|
  {
    if |order| > 0 {
      AskedNone(table, order[..|order| - 1], t);
    }
  }

  /** Some entry of the table has `account` online (`isAccountInAnyGameServer`). */
  ghost predicate AccountOnline(table: map<int, GameServerInfo>, account: JString)
    reads table.Values, set g | g in table.Values :: g.gst
  {
    exists id :: id in table && HoldsAccount(table[id], account)
  }

  /**
   * The condition of `isLoginPossible`: the server is registered and
   * authed, and either has room and is not GM-only, or the client has a
   * positive access level.
   */
  predicate LoginPossible(table: map<int, GameServerInfo>, serverId: int, accessLevel: int)
    reads table.Values, set g | g in table.Values :: g.gst
  {
    && serverId in table
    && var gsi := table[serverId];
       && gsi.isAuthed
       && ((gsi.CurrentPlayerCount() < gsi.maxPlayers && gsi.status != STATUS_GM_ONLY) || accessLevel > 0)
  }

  /** A map lookup that answers null for a missing key, as `Map.get` does. */
  function Get(bans: map<BanKey, int>, key: BanKey): (r: Option<int>)
    ensures r.Some? <==> key in bans
    ensures r.Some? ==> r.value == bans[key]
  {
    if key in bans then Some(bans[key]) else None
  }

  /**
   * The `LoginController` singleton: the accounts claimed by a client
   * still on the login server, the failure counters and the ban table.
   * `gameServers` is the registry it consults; `config` the settings it reads.
   */
  class LoginController {
    const config: LoginConfig
    const gameServers: GameServerTable
    var loginServerClients: map<JString, L2LoginClient>
    var failedLoginAttemps: map<IPv4, int>
    var bannedIps: map<BanKey, int>

    ghost predicate Valid()
      reads this
    {
      GuardValid(config, Guard(failedLoginAttemps, bannedIps))
    }

    /** A controller with no claims, counters or bans; the key material is not modelled. */
    constructor (config: LoginConfig, gameServers: GameServerTable)
      ensures Valid() && this.config == config && this.gameServers == gameServers
      ensures loginServerClients == map[] && failedLoginAttemps == map[] && bannedIps == map[]
    {
      this.config := config;
      this.gameServers := gameServers;
      loginServerClients := map[];
      failedLoginAttemps := map[];
      bannedIps := map[];
    }

    /**
     * `assignSessionKeyToClient(account, client)` with the four numbers of
     * `Rnd.nextInt()`: the key, and the account claimed by the client.
     */
    method AssignSessionKeyToClient(account: JString, client: L2LoginClient, r1: int, r2: int, r3: int, r4: int)
      returns (key: SessionKey)
      modifies this`loginServerClients
      ensures key == SessionKey(r1, r2, r3, r4)
      ensures loginServerClients == old(loginServerClients)[account := client]
    {
      key := SessionKey(r1, r2, r3, r4);
      loginServerClients := loginServerClients[account := client];
    }

    /** `removeAuthedLoginClient(account)`: a null account is ignored. */
    method RemoveAuthedLoginClient(account: Option<JString>)
      modifies this`loginServerClients
      ensures loginServerClients == if account.None? then old(loginServerClients) else old(loginServerClients) - {account.value}
      ensures account.Some? ==> account.value !in loginServerClients
    {
      if account.None? {
        return;
      }
      loginServerClients := loginServerClients - {account.value};
    }

    /** `getAuthedClient(account)`. */
    function GetAuthedClient(account: JString): (c: L2LoginClient?)
      reads this
      ensures c != null <==> account in loginServerClients
      ensures c != null ==> c == loginServerClients[account]
    {
      if account in loginServerClients then loginServerClients[account] else null
    }

    /** `clearFailedLoginAttemps(addr)`. */
    method ClearFailedLoginAttemps(addr: IPv4)
      requires Valid()
      modifies this`failedLoginAttemps
      ensures Valid() && failedLoginAttemps == old(failedLoginAttemps) - {addr}
    {
      failedLoginAttemps := failedLoginAttemps - {addr};
    }

    /** `addBanForAddress(InetAddress, duration)` at time `now`: an existing entry is kept. */
    method AddBanForAddress(address: IPv4, duration: int, now: int)
      requires Valid()
      modifies this`bannedIps
      ensures Valid()
      ensures bannedIps == if ByAddress(address) in old(bannedIps) then old(bannedIps)
                           else old(bannedIps)[ByAddress(address) := Wrap64(now + duration)]
    {
      if ByAddress(address) !in bannedIps {
        bannedIps := bannedIps[ByAddress(address) := Wrap64(now + duration)];
      }
    }

    /**
     * `addBanForAddress(String, expiration)`: the text is resolved (`resolve`
     * stands for `InetAddress.getByName`), and the expiration is stored as
     * given; an unknown host is the `UnknownHostException` (false).
     */
    method AddBanForText(address: JString, expiration: int, resolve: JString -> Option<IPv4>) returns (ok: bool)
      requires Valid()
      modifies this`bannedIps
      ensures Valid()
      ensures ok <==> resolve(address).Some?
      ensures !ok ==> bannedIps == old(bannedIps)
      ensures ok ==> var key := ByAddress(resolve(address).value);
        bannedIps == if key in old(bannedIps) then old(bannedIps) else old(bannedIps)[key := expiration]
    {
      var a := resolve(address);
      if a.None? {
        return false;
      }
      var key := ByAddress(a.value);
      if key !in bannedIps {
        bannedIps := bannedIps[key := expiration];
      }
      return true;
    }

    /**
     * `recordFailedLoginAttemp(addr)` at time `now`: the counter goes up;
     * at `LOGIN_TRY_BEFORE_BAN` the address is banned for
     * `LOGIN_BLOCK_AFTER_BAN` seconds and the counter cleared.
     */
    method RecordFailedLoginAttemp(addr: IPv4, now: int)
      requires Valid()
      modifies this`failedLoginAttemps, this`bannedIps
      ensures Valid()
      ensures Guard(failedLoginAttemps, bannedIps) == Failure(config, Guard(old(failedLoginAttemps), old(bannedIps)), addr, now)
    {
      FailureKeepsGuard(config, Guard(failedLoginAttemps, bannedIps), addr, now);
      var n := if addr in failedLoginAttemps then failedLoginAttemps[addr] + 1 else 1;
      if n >= config.loginTryBeforeBan {
        assert failedLoginAttemps[addr := n] - {addr} == failedLoginAttemps - {addr};
        bannedIps := if ByAddress(addr) in bannedIps then bannedIps
                     else bannedIps[ByAddress(addr) := FailureBanExpiry(config, now)];
        failedLoginAttemps := failedLoginAttemps - {addr};
      } else {
        failedLoginAttemps := failedLoginAttemps[addr := n];
      }
    }

    /** One pass of `retriveAccountInfo` over a row that was found. */
    method CheckAccountRow(addr: IPv4, now: int, row: AccountRow, passHash: JString) returns (info: Option<AccountInfo>)
      requires Valid()
      modifies this`failedLoginAttemps, this`bannedIps
      ensures Valid()
      ensures Retrieved(info, Guard(failedLoginAttemps, bannedIps))
           == CheckRow(config, Guard(old(failedLoginAttemps), old(bannedIps)), addr, now, row, passHash)
    {
      info := NewAccountInfo(row.login, row.password, row.accessLevel, row.lastServer);
      if info.None? {
        return;
      }
      if !CheckPassHash(info.value, passHash) {
        RecordFailedLoginAttemp(addr, now);
        return None;
      }
      ClearFailedLoginAttemps(addr);
    }

    /**
     * `retriveAccountInfo(addr, login, password)` at time `now`, with the
     * database's answers as parameters (see `Retrieve`).
     */
    method RetriveAccountInfo(addr: IPv4, now: int, passHash: JString,
                              found: Option<AccountRow>, insertOk: bool, foundAfterInsert: Option<AccountRow>)
      returns (info: Option<AccountInfo>)
      requires Valid()
      modifies this`failedLoginAttemps, this`bannedIps
      ensures Valid()
      ensures Retrieved(info, Guard(failedLoginAttemps, bannedIps))
           == Retrieve(config, Guard(old(failedLoginAttemps), old(bannedIps)), addr, now, passHash, found, insertOk, foundAfterInsert)
    {
      if found.Some? {
        info := CheckAccountRow(addr, now, found.value, passHash);
        return;
      }
      if !config.autoCreateAccounts {
        RecordFailedLoginAttemp(addr, now);
        return None;
      }
      if !insertOk {
        return None;
      }
      if foundAfterInsert.None? {
        RecordFailedLoginAttemp(addr, now);
        return None;
      }
      info := CheckAccountRow(addr, now, foundAfterInsert.value, passHash);
    }

    /**
     * `isBannedAddress(address)` at time `now`: the exact address, then
     * the three wildcard texts; an entry with a positive expiry in the past
     * is expired, and the removal that follows targets the exact address.
     */
    method IsBannedAddress(address: IPv4, now: int) returns (banned: bool)
      requires Valid()
      modifies this`bannedIps
      ensures Valid()
      ensures var hit := BanLookup(old(bannedIps), address);
        && (hit.None? ==> !banned && bannedIps == old(bannedIps))
        && (hit.Some? && 0 < hit.value < now ==> !banned && bannedIps == old(bannedIps) - {ByAddress(address)})
        && (hit.Some? && !(0 < hit.value < now) ==> banned && bannedIps == old(bannedIps))
    {
      HostAddressParts(address);
      var parts := SplitChar(HostAddress(address), DOT);
      ghost var keys := [ByAddress(address)] + WildcardKeys(parts);
      assert keys[1..] == WildcardKeys(parts);
      assert keys[2..] == WildcardKeys(parts)[1..];
      assert keys[3..] == WildcardKeys(parts)[2..];
      var bi := Get(bannedIps, ByAddress(address));
      if bi.None? {
        bi := Get(bannedIps, ByText(parts[0] + [DOT] + parts[1] + [DOT] + parts[2] + Lit(".0")));
      }
      if bi.None? {
        bi := Get(bannedIps, ByText(parts[0] + [DOT] + parts[1] + Lit(".0.0")));
      }
      if bi.None? {
        bi := Get(bannedIps, ByText(parts[0] + Lit(".0.0.0")));
      }
      assert bi == BanLookup(bannedIps, address);
      if bi.Some? {
        if bi.value > 0 && bi.value < now {
          bannedIps := bannedIps - {ByAddress(address)};
          return false;
        }
        return true;
      }
      return false;
    }

    /**
     * `removeBanForAddress(InetAddress)`: the removal uses the address's
     * text as the key, which no entry has, so it never removes anything.
     */
    method RemoveBanForAddress(address: IPv4) returns (removed: bool)
      requires Valid()
      modifies this`bannedIps
      ensures Valid()
      ensures removed <==> ByText(HostAddress(address)) in old(bannedIps)
      ensures bannedIps == old(bannedIps) - {ByText(HostAddress(address))}
      ensures !removed && bannedIps == old(bannedIps)
    {
      var key := ByText(HostAddress(address));
      removed := key in bannedIps;
      bannedIps := bannedIps - {key};
    }

    /** `removeBanForAddress(String)`: an unknown host answers false. */
    method RemoveBanForText(address: JString, resolve: JString -> Option<IPv4>) returns (removed: bool)
      requires Valid()
      modifies this`bannedIps
      ensures Valid() && !removed && bannedIps == old(bannedIps)
    {
      var a := resolve(address);
      if a.None? {
        return false;
      }
      removed := RemoveBanForAddress(a.value);
    }

    /** `getKeyForAccount(account)`: the session key of the client holding the claim. */
    method GetKeyForAccount(account: JString) returns (key: Option<SessionKey>)
      ensures account !in loginServerClients ==> key == None
      ensures account in loginServerClients ==> key == loginServerClients[account].sessionKey
    {
      var client := GetAuthedClient(account);
      if client != null {
        return client.sessionKey;
      }
      return None;
    }

    /**
     * `getAccountOnGameServer(account)`, with `order` the order in which
     * the table yields its entries: the first entry whose connection has
     * the account online, or null.
     */
    method GetAccountOnGameServer(account: JString, order: seq<int>) returns (gsi: GameServerInfo?)
      requires forall i :: 0 <= i < |order| ==> order[i] in gameServers.gameServerTable
      requires forall id :: id in gameServers.gameServerTable ==> id in order
      ensures gsi == null <==> !AccountOnline(gameServers.gameServerTable, account)
      ensures gsi != null ==> HoldsAccount(gsi, account)
      ensures gsi != null ==> exists k :: (
        && 0 <= k < |order| && gameServers.gameServerTable[order[k]] == gsi
        && forall j :: 0 <= j < k ==> !HoldsAccount(gameServers.gameServerTable[order[j]], account))
    {
      var table := gameServers.gameServerTable;
      var k := 0;
      while k < |order|
        invariant 0 <= k <= |order|
        invariant forall j :: 0 <= j < k ==> !HoldsAccount(table[order[j]], account)
      {
        var g := table[order[k]];
        if g.gst != null && g.gst.HasAccountOnGameServer(account) {
          var id: int := order[k];
          assert id in table && HoldsAccount(table[id], account);
          return g;
        }
        k := k + 1;
      }
      forall id | id in table ensures !HoldsAccount(table[id], account) {
        var j :| 0 <= j < |order| && order[j] == id;
      }
      return null;
    }

    /**
     * `getCharactersOnAccount(account)`, with `order` the order in which
     * the table yields its entries: the connection of every authed entry
     * is asked for the account's characters, once per entry it serves.
     */
    method GetCharactersOnAccount(account: JString, order: seq<int>)
      requires forall i :: 0 <= i < |order| ==> order[i] in gameServers.gameServerTable
      requires AuthedLinked(gameServers.gameServerTable)
      modifies Links(gameServers.gameServerTable)`charsRequested
      ensures forall t :: t in Links(gameServers.gameServerTable) ==>
        t.charsRequested == old(t.charsRequested) + Repeat(account, AskedCount(gameServers.gameServerTable, order, t))
    {
      var table := gameServers.gameServerTable;
      ghost var links := Links(table);
      var k := 0;
      while k < |order|
        invariant 0 <= k <= |order|
        invariant forall t :: t in links ==>
          t.charsRequested == old(t.charsRequested) + Repeat(account, AskedCount(table, order[..k], t))
      {
        var g := table[order[k]];
        AskedStep(table, order, k);
        if g.isAuthed {
          assert g.gst in links;
          g.gst.RequestCharacters(account);
        }
        k := k + 1;
      }
      assert order[..k] == order;
    }

    /** `isAccountInAnyGameServer(account)`. */
    method IsAccountInAnyGameServer(account: JString, order: seq<int>) returns (online: bool)
      requires forall i :: 0 <= i < |order| ==> order[i] in gameServers.gameServerTable
      requires forall id :: id in gameServers.gameServerTable ==> id in order
      ensures online <==> AccountOnline(gameServers.gameServerTable, account)
    {
      var gsi := GetAccountOnGameServer(account, order);
      online := gsi != null;
    }

    /**
     * `isLoginPossible(client, serverId)`: the server must be registered and
     * authed, and either have room and not be GM-only, or the client have
     * a positive access level. The last-server update is a database write.
     */
    method IsLoginPossible(client: L2LoginClient, serverId: int) returns (ok: bool)
      ensures ok <==> LoginPossible(gameServers.gameServerTable, serverId, client.accessLevel)
    {
      var gsi := gameServers.RegisteredGameServerById(serverId);
      if gsi != null && gsi.isAuthed {
        ok := (gsi.CurrentPlayerCount() < gsi.maxPlayers && gsi.status != STATUS_GM_ONLY) || client.accessLevel > 0;
        return;
      }
      return false;
    }

    /**
     * `setCharactersOnServer(account, charsNum, timeToDel, serverId)`: the
     * counts are stored on the claiming client; zero characters and an
     * empty deletion list leave their map as it was.
     */
    method SetCharactersOnServer(account: JString, charsNum: int, timeToDel: seq<int>, serverId: int)
      modifies if account in loginServerClients then {loginServerClients[account]} else {}
      ensures account in loginServerClients ==> var c := loginServerClients[account];
        && c.charsOnServers == (if charsNum > 0 then Some((if old(c.charsOnServers).Some? then old(c.charsOnServers).value else map[])[serverId := charsNum])
                                else old(c.charsOnServers))
        && c.charsToDelete == (if |timeToDel| > 0 then Some((if old(c.charsToDelete).Some? then old(c.charsToDelete).value else map[])[serverId := timeToDel])
                               else old(c.charsToDelete))
    {
      var client := GetAuthedClient(account);
      if client == null {
        return;
      }
      if charsNum > 0 {
        client.SetCharsOnServ(serverId, charsNum);
      }
      if |timeToDel| > 0 {
        client.SerCharsWaitingDelOnServ(serverId, timeToDel);
      }
    }

    /**
     * `canCheckin(client, address, info)`, with the account's rows of
     * `accounts_ipauth` and `resolve` for `InetAddress.getByName`: the rows
     * are read in order into the allow and deny lists, and on success the
     * client takes the account's access level and last server.
     */
    method CanCheckin(client: L2LoginClient, address: IPv4, info: AccountInfo,
                      rows: seq<IpAuthRow>, resolve: JString -> Option<IPv4>) returns (ok: bool)
      modifies client`accessLevel, client`lastServer
      ensures ok == CheckinAllowed(rows, resolve, address)
      ensures ok ==> client.accessLevel == info.accessLevel && client.lastServer == info.lastServer
      ensures !ok ==> client.accessLevel == old(client.accessLevel) && client.lastServer == old(client.lastServer)
    {
      var read := ReadIpLists(rows, resolve);
      if read.None? {
        return false;
      }
      var lists := read.value;
      if |lists.allow| > 0 || |lists.deny| > 0 {
        if |lists.allow| > 0 && address !in lists.allow {
          return false;
        }
        if |lists.deny| > 0 && address in lists.deny {
          return false;
        }
      }
      client.accessLevel := info.accessLevel;
      client.lastServer := info.lastServer;
      return true;
    }

    /**
     * `tryCheckinAccount(client, address, info)`: a negative access level is
     * a ban; a refused check-in answers INVALID_PASSWORD; an account online
     * on a game server, or claimed by another client here, is refused;
     * otherwise the client claims the account.
     */
    method TryCheckinAccount(client: L2LoginClient, address: IPv4, info: AccountInfo,
                             rows: seq<IpAuthRow>, resolve: JString -> Option<IPv4>, order: seq<int>)
      returns (ret: AuthLoginResult)
      requires forall i :: 0 <= i < |order| ==> order[i] in gameServers.gameServerTable
      requires forall id :: id in gameServers.gameServerTable ==> id in order
      modifies this`loginServerClients, client`accessLevel, client`lastServer
      ensures info.accessLevel < 0 ==> ret == AccountBanned
      ensures info.accessLevel >= 0 && !CheckinAllowed(rows, resolve, address) ==> ret == InvalidPassword
      ensures info.accessLevel >= 0 && CheckinAllowed(rows, resolve, address) ==>
        && client.accessLevel == info.accessLevel && client.lastServer == info.lastServer
        && ret == if AccountOnline(gameServers.gameServerTable, info.login) then AlreadyOnGs
                  else if info.login in old(loginServerClients) then AlreadyOnLs
                  else AuthSuccess
      ensures loginServerClients == if ret == AuthSuccess then old(loginServerClients)[info.login := client]
                                    else old(loginServerClients)
      ensures ret != AuthSuccess && !(info.accessLevel >= 0 && CheckinAllowed(rows, resolve, address)) ==>
        client.accessLevel == old(client.accessLevel) && client.lastServer == old(client.lastServer)
    {
      if info.accessLevel < 0 {
        return AccountBanned;
      }
      ret := InvalidPassword;
      var allowed := CanCheckin(client, address, info, rows, resolve);
      if allowed {
        ret := AlreadyOnGs;
        var online := IsAccountInAnyGameServer(info.login, order);
        if !online {
          ret := AlreadyOnLs;
          if info.login !in loginServerClients {
            loginServerClients := loginServerClients[info.login := client];
            ret := AuthSuccess;
          }
        }
      }
    }
  }

  /** One row of the `canCheckin` loop, as the code runs it: the validity check, then the kind. */
  method ReadRow(lists: IpLists, row: IpAuthRow, resolve: JString -> Option<IPv4>) returns (r: Option<IpLists>)
    ensures r == AddRow(lists, row, resolve)
  {
    var valid := IsValidIPAddress(row.ip);
    if valid.None? {
      return None;
    }
    if !valid.value {
      return Some(lists);
    }
    if row.kind == Lit("allow") {
      var a := resolve(row.ip);
      if a.None? {
        return None;
      }
      return Some(IpLists(lists.allow + [a.value], lists.deny));
    }
    if row.kind == Lit("deny") {
      var a := resolve(row.ip);
      if a.None? {
        return None;
      }
      return Some(IpLists(lists.allow, lists.deny + [a.value]));
    }
    return Some(lists);
  }

  /** The loop of `canCheckin` over the rows; `None` when a row throws. */
  method ReadIpLists(rows: seq<IpAuthRow>, resolve: JString -> Option<IPv4>) returns (r: Option<IpLists>)
    ensures r == ReadLists(rows, resolve)
  {
    var lists := IpLists([], []);
    var k := 0;
    while k < |rows|
      invariant 0 <= k <= |rows|
      invariant ReadLists(rows[..k], resolve) == Some(lists)
    {
      var next := ReadRow(lists, rows[k], resolve);
      assert rows[..k + 1][..k] == rows[..k];
      if next.None? {
        ReadListsAbort(rows, k + 1, resolve);
        return None;
      }
      lists := next.value;
      k := k + 1;
    }
    assert rows[..k] == rows;
    return Some(lists);
  }

  /** An exception on some row aborts the whole read. */
  lemma {:induction false} ReadListsAbort(rows: seq<IpAuthRow>, k: nat, resolve: JString -> Option<IPv4>)
    requires k <= |rows| && ReadLists(rows[..k], resolve).None?
    ensures ReadLists(rows, resolve).None?
    decreases |rows| - k
  {
    if k < |rows| {
      assert rows[..k + 1][..k] == rows[..k];
      ReadListsAbort(rows, k + 1, resolve);
    } else {
      assert rows[..k] == rows;
    }
  }
}
