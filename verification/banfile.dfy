/**
 * The ban file read at start-up (login/L2LoginServer.java, `loadBanFile`):
 * one address per line, an optional expiry after white space, and `#`
 * comments. Each line that parses is handed to the controller's
 * `addBanForAddress(String, long)`, so its number is an absolute expiry
 * time (0 for a ban that never ends), not a duration.
 *
 * Reading the file is not modelled: the lines are a parameter, and a
 * missing file is an empty sequence of lines.
 */
module BanFile {
  import opened Wire
  import opened JavaText
  import opened ServerPackets
  import opened Login

  const HASH: JChar := 0x23

  /** What one line of the file amounts to. */
  datatype BanLine =
    | Skipped                                   // empty after trimming, or a comment line
    | BadDuration(duration: JString)            // a second token that is not a `long`
    | BanEntry(address: JString, expiration: int)

  /** The end of the first white-space-free token of `s`. */
  function TokenEnd(s: JString): (n: int)
    ensures 0 <= n <= |s| && forall k :: 0 <= k < n ==> !IsRegexSpace(s[k])
  {
    var i := FirstSpace(s);
    if i < 0 then |s| else i
  }

  /**
   * One line of the `forEach`: trimmed, skipped when empty or starting with
   * `#`; the text from the first `#` on is dropped, the rest is split at
   * runs of white space; the first token is the address, the second (if
   * any) the expiry, which must parse as a `long`.
   */
  function ParseBanLine(raw: JString): (r: BanLine)
    ensures var line := Trim(raw); r.Skipped? <==> line == [] || line[0] == HASH
    ensures r.BanEntry? ==>
      && r.address != [] && HASH !in r.address
      && (forall k :: 0 <= k < |r.address| ==> !IsRegexSpace(r.address[k]))
      && IsInt64(r.expiration)
  {
    var line := Trim(raw);
    if line == [] || line[0] == HASH then Skipped
    else
      var text := Before(line, HASH);
      FirstToken(line, text);
      var parts := SplitSpaces(text);
      if |parts| > 1 then
        match ParseLong(parts[1])
        case None => BadDuration(parts[1])
        case Some(d) => BanEntry(parts[0], d)
      else BanEntry(parts[0], 0)
  }

  /**
   * A trimmed line that does not start with `#` keeps a non-empty text
   * before its first `#`, and its first token is the run of units up to
   * the first white space.
   */
  lemma FirstToken(line: JString, text: JString)
    requires line != [] && line[0] > SPACE && line[0] != HASH && text == Before(line, HASH)
    ensures text != [] && HASH !in text
    ensures |SplitSpaces(text)| >= 1 && SplitSpaces(text)[0] == text[..TokenEnd(text)]
    ensures TokenEnd(text) > 0
  {
    assert IndexOf(line, HASH) != 0;
    assert text[0] == line[0];
    var i := FirstSpace(text);
    if i >= 0 {
      var ps := SpacePieces(text);
      assert ps[0] == text[..i] && ps[0] != [];
      assert DropTrailingEmpty(ps)[0] == ps[0];
    }
  }

  /** The expiry stored for each line that parses: a ban already present is kept. */
  function AddIfAbsent(bans: map<BanKey, int>, key: BanKey, expiration: int): map<BanKey, int>
  {
    if key in bans then bans else bans[key := expiration]
  }

  /** One line's effect on the table. */
  function Step(bans: map<BanKey, int>, line: JString, resolve: JString -> Option<IPv4>): map<BanKey, int>
  {
    match ParseBanLine(line)
    case BanEntry(address, expiration) =>
      (match resolve(address)
       case Some(a) => AddIfAbsent(bans, ByAddress(a), expiration)
       case None => bans)
    case _ => bans
  }

  /** The table after the lines, in order: each entry whose address resolves is added unless already banned. */
  function BansAfter(bans: map<BanKey, int>, lines: seq<JString>, resolve: JString -> Option<IPv4>): map<BanKey, int>
  {
    if lines == [] then bans
    else Step(BansAfter(bans, lines[..|lines| - 1], resolve), lines[|lines| - 1], resolve)
  }

  /**
   * `loadBanFile` over the file's lines: every line that parses is passed
   * to `addBanForAddress(address, expiration)`; a bad expiry or an address
   * that does not resolve skips the line.
   */
  method LoadBanFile(controller: LoginController, lines: seq<JString>, resolve: JString -> Option<IPv4>)
    requires controller.Valid()
    modifies controller`bannedIps
    ensures controller.Valid()
    ensures controller.bannedIps == BansAfter(old(controller.bannedIps), lines, resolve)
  {
    ghost var start := controller.bannedIps;
    var k := 0;
    while k < |lines|
      invariant 0 <= k <= |lines| && controller.Valid()
      invariant controller.bannedIps == BansAfter(start, lines[..k], resolve)
    {
      assert lines[..k + 1][..k] == lines[..k];
      var entry := ParseBanLine(lines[k]);
      if entry.BanEntry? {
        var _ := controller.AddBanForText(entry.address, entry.expiration, resolve);
      }
      k := k + 1;
    }
    assert lines[..k] == lines;
  }

  // ================================================================ properties

  /** One line never changes or removes an entry; an entry line whose address resolves leaves it banned. */
  lemma StepKeeps(bans: map<BanKey, int>, line: JString, resolve: JString -> Option<IPv4>)
    ensures forall key :: key in bans ==> key in Step(bans, line, resolve) && Step(bans, line, resolve)[key] == bans[key]
    ensures ParseBanLine(line).BanEntry? && resolve(ParseBanLine(line).address).Some? ==>
      ByAddress(resolve(ParseBanLine(line).address).value) in Step(bans, line, resolve)
  {
    var e := ParseBanLine(line);
    assert Step(bans, line, resolve) ==
      if e.BanEntry? && resolve(e.address).Some? then AddIfAbsent(bans, ByAddress(resolve(e.address).value), e.expiration)
      else bans;
  }

  /** Loading the file never changes or removes a ban that was already there. */
  lemma {:induction false} BansAfterKeeps(bans: map<BanKey, int>, lines: seq<JString>, resolve: JString -> Option<IPv4>)
    ensures forall key :: key in bans ==> key in BansAfter(bans, lines, resolve) && BansAfter(bans, lines, resolve)[key] == bans[key]
  {
    if lines != [] {
      var init := lines[..|lines| - 1];
      BansAfterKeeps(bans, init, resolve);
      StepKeeps(BansAfter(bans, init, resolve), lines[|lines| - 1], resolve);
    }
  }

  /** Every line that parses to a resolvable address leaves that address banned. */
  lemma {:induction false} BansAfterCovers(bans: map<BanKey, int>, lines: seq<JString>, resolve: JString -> Option<IPv4>, k: int)
    requires 0 <= k < |lines| && ParseBanLine(lines[k]).BanEntry?
    requires resolve(ParseBanLine(lines[k]).address).Some?
    ensures ByAddress(resolve(ParseBanLine(lines[k]).address).value) in BansAfter(bans, lines, resolve)
    decreases |lines|
  {
    var init := lines[..|lines| - 1];
    var prev := BansAfter(bans, init, resolve);
    StepKeeps(prev, lines[|lines| - 1], resolve);
    if k < |lines| - 1 {
      assert init[k] == lines[k];
      BansAfterCovers(bans, init, resolve, k);
    }
  }

  /** Without white space and comments, a string is its own trimmed, comment-free text. */
  lemma TrimPlain(s: JString)
    requires s != [] && s[0] > SPACE && s[|s| - 1] > SPACE
    ensures Trim(s) == s
  {
    assert TrimStart(s) == s;
    assert TrimEnd(s) == s;
  }

  /** A line made of a printed address, one space and a printed number. */
  function BanLineText(a: IPv4, expiration: int): JString
  {
    HostAddress(a) + [SPACE] + Decimal(expiration)
  }

  /** A number's text holds no white space, no `#` and starts with no space. */
  lemma DecimalPlain(n: int)
    ensures Decimal(n) != [] && Decimal(n)[0] > SPACE && Decimal(n)[|Decimal(n)| - 1] > SPACE
    ensures forall k :: 0 <= k < |Decimal(n)| ==> !IsRegexSpace(Decimal(n)[k]) && Decimal(n)[k] != HASH
  {
    var d := Decimal(n);
    forall k | 0 <= k < |d| ensures !IsRegexSpace(d[k]) && d[k] != HASH && d[k] > SPACE {
      if n < 0 && k == 0 {
        assert d[k] == MINUS;
      } else if n < 0 {
        assert d[k] == Digits(-n)[k - 1];
      }
    }
  }

  /** A printed address holds no white space and no `#`, and ends in digits. */
  lemma HostAddressPlain(a: IPv4)
    ensures HostAddress(a) != [] && HostAddress(a)[0] > SPACE && HostAddress(a)[|HostAddress(a)| - 1] > SPACE
    ensures forall k :: 0 <= k < |HostAddress(a)| ==> !IsRegexSpace(HostAddress(a)[k]) && HostAddress(a)[k] != HASH
  {
    var ps := [Decimal(a[0]), Decimal(a[1]), Decimal(a[2]), Decimal(a[3])];
    forall i | 0 <= i < 4 ensures forall k :: 0 <= k < |ps[i]| ==> !IsRegexSpace(ps[i][k]) && ps[i][k] != HASH && ps[i][k] > SPACE {
      DecimalPlain(a[i]);
      forall k | 0 <= k < |ps[i]| ensures ps[i][k] > SPACE {
        assert IsAsciiDigit(ps[i][k]) by { DecimalNoDot(a[i]); DigitsOnly(a[i], k); }
      }
    }
    PlainJoin(ps);
  }

  /** The digits of a natural number are digits. */
  lemma DigitsOnly(n: nat, k: int)
    requires 0 <= k < |Decimal(n)|
    ensures IsAsciiDigit(Decimal(n)[k])
  {
  }

  /** Plain pieces joined with dots stay plain. */
  lemma {:induction false} PlainJoin(ps: seq<JString>)
    requires |ps| >= 1
    requires forall i :: 0 <= i < |ps| ==> ps[i] != [] && forall k :: 0 <= k < |ps[i]| ==> !IsRegexSpace(ps[i][k]) && ps[i][k] != HASH && ps[i][k] > SPACE
    ensures var s := Join(ps, DOT); s != [] && s[0] > SPACE && s[|s| - 1] > SPACE
    ensures var s := Join(ps, DOT); forall k :: 0 <= k < |s| ==> !IsRegexSpace(s[k]) && s[k] != HASH
    decreases |ps|
  {
    if |ps| > 1 {
      PlainJoin(ps[1..]);
      var s := Join(ps, DOT);
      var t := Join(ps[1..], DOT);
      assert s == ps[0] + [DOT] + t;
      forall k | 0 <= k < |s| ensures !IsRegexSpace(s[k]) && s[k] != HASH {
        if k < |ps[0]| {
          assert s[k] == ps[0][k];
        } else if k > |ps[0]| {
          assert s[k] == t[k - |ps[0]| - 1];
        }
      }
      assert s[|s| - 1] == t[|t| - 1];
    }
  }

  /** Plain text: non-empty, no white space and no `#`, and no unit up to U+0020 at either end. */
  predicate Plain(s: JString)
  {
    s != [] && s[0] > SPACE && s[|s| - 1] > SPACE
    && forall k :: 0 <= k < |s| ==> !IsRegexSpace(s[k]) && s[k] != HASH
  }

  /**
   * The line a ban file holds for an address and an expiry reads back as
   * that address's text and that expiry.
   */
  lemma BanLineRoundTrip(a: IPv4, expiration: int)
    requires IsInt64(expiration)
    ensures ParseBanLine(BanLineText(a, expiration)) == BanEntry(HostAddress(a), expiration)
  {
    HostAddressPlain(a);
    DecimalPlain(expiration);
    TwoTokens(HostAddress(a), Decimal(expiration));
    DecimalRoundTrip(expiration, -0x8000_0000_0000_0000, 0x7FFF_FFFF_FFFF_FFFF);
  }

  /** Two plain tokens separated by one space: the line is already trimmed, has no comment, and splits into them. */
  lemma TwoTokens(h: JString, d: JString)
    requires Plain(h) && Plain(d)
    ensures var line := h + [SPACE] + d;
      Trim(line) == line && Before(line, HASH) == line && SplitSpaces(line) == [h, d]
  {
    var line := h + [SPACE] + d;
    assert line[0] == h[0] && line[|line| - 1] == d[|d| - 1];
    TrimPlain(line);
    NoHash(h, d);
    SplitTwo(h, d);
  }

  /** Two plain tokens joined by a space hold no `#`. */
  lemma NoHash(h: JString, d: JString)
    requires Plain(h) && Plain(d)
    ensures Before(h + [SPACE] + d, HASH) == h + [SPACE] + d
  {
    var line := h + [SPACE] + d;
    assert HASH !in line by {
      forall k | 0 <= k < |line| ensures line[k] != HASH {
        if k < |h| {
          assert line[k] == h[k];
        } else if k > |h| {
          assert line[k] == d[k - |h| - 1];
        }
      }
    }
  }

  /** Two plain tokens joined by a space split into exactly those tokens. */
  lemma SplitTwo(h: JString, d: JString)
    requires Plain(h) && Plain(d)
    ensures SplitSpaces(h + [SPACE] + d) == [h, d]
  {
    PiecesTwo(h, d);
    FirstSpaceAfter(h, d);
    var ps := SpacePieces(h + [SPACE] + d);
    assert ps[|ps| - 1] != [];
  }

  /** The white-space pieces of two plain tokens joined by a space. */
  lemma PiecesTwo(h: JString, d: JString)
    requires Plain(h) && Plain(d)
    ensures SpacePieces(h + [SPACE] + d) == [h, d]
  {
    SpaceThenToken(d);
    PiecesAtSpace(h, d);
  }

  /** Splitting at the first white space, when `h` holds none. */
  lemma PiecesAtSpace(h: JString, d: JString)
    requires forall k :: 0 <= k < |h| ==> !IsRegexSpace(h[k])
    ensures SpacePieces(h + [SPACE] + d) == [h] + SpacePieces(SkipSpaces([SPACE] + d))
  {
    var line := h + [SPACE] + d;
    FirstSpaceAfter(h, d);
    assert SpacePieces(line) == [line[..|h|]] + SpacePieces(SkipSpaces(line[|h|..]));
    assert line[|h|..] == [SPACE] + d;
    assert line[..|h|] == h;
  }

  /** After one space, a plain token is a single last piece. */
  lemma SpaceThenToken(d: JString)
    requires Plain(d)
    ensures SkipSpaces([SPACE] + d) == d && SpacePieces(d) == [d]
  {
    assert ([SPACE] + d)[1..] == d;
    assert FirstSpace(d) < 0;
  }

  /** The first white space of `h + " " + d` is the space, when `h` holds none. */
  lemma FirstSpaceAfter(h: JString, d: JString)
    requires forall k :: 0 <= k < |h| ==> !IsRegexSpace(h[k])
    ensures FirstSpace(h + [SPACE] + d) == |h|
  {
    var s := h + [SPACE] + d;
    assert IsRegexSpace(s[|h|]);
    assert forall k :: 0 <= k < |h| ==> s[k] == h[k];
  }
}
