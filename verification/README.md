# L2J login server: protocol logic in Dafny

This project is a Dafny model of the protocol core of the L2J login server. The login server is the broker between game clients and game servers. Clients authenticate with it, and game servers register with it. It then hands clients a session key that a game server redeems.

The model covers six parts, each with properties proved about it:

- **Frame crypto and the wire codec.**
  - `Crypt` models `NewCrypt`: the XOR-fold checksum, the first-frame XOR chain, and the ECB stride loops over an abstract block cipher.
  - `LoginCrypto` models `LoginCrypt`: the switch from the static key to the client's key, and the padding arithmetic.
  - `Packets` models the little-endian packet writer and the cursor-based reader.
  - `LoginServerPackets` and `ServerPackets` model the fixed-layout outgoing packets, ServerList included.
- **The login authority** (`Login`):
  - the account-to-client claim map;
  - the per-address failure counter with its automatic ban;
  - the IP ban table with lazy expiry;
  - the five-way check-in result, the `isLoginPossible` rule and the IPv4 text validator;
  - `AccountInfo`.

  `BanFile` models the line parsing of the ban file.
- **The game-server registry** (`Registry`): `GameServerTable`, `GameServerInfo` and the bookkeeping of `GameServerThread`. `GameServerPackets` models:
  - the id resolution of `GameServerAuth`;
  - `ServerStatus`, `BlowFishKey`, `PlayerAuthRequest`, `PlayerLogout` and `RequestTempBan`;
  - the strict state-by-opcode dispatch of the game-server channel.
- **The client channel** (`ClientPackets`):
  - the permissive dispatch of `L2LoginPacketHandler`;
  - `RequestAuthLogin` and `RequestServerLogin`;
  - the client's own state in `Login.L2LoginClient`.
- **The admission guard** (`Flood`): the per-address counters and the flood test of `FloodProtectedListener`.
- **Helpers:**
  - `ServerConfig` models `Config.getServerTypeId`;
  - `TextUtil` models `Util.replaceIllegalCharacters`;
  - `Mail` models `BaseMail.compileHtml` and the mail constructor;
  - `JavaText` holds the Java `String` operations the code relies on;
  - `Wire` holds Java integer arithmetic and little-endian encodings.

Objects whose fields the Java code updates are Dafny classes with those fields. This covers the cipher objects, the packet writer and reader, the login controller and client, the registry, the game-server connection and the flood listener. Byte buffers are arrays, updated in place, and loops keep their invariants. Each method is proved against a specification function. The properties are proved about those functions: round trips, invariants kept, and the iff-conditions of every decision.

Anything outside the program's own logic is passed in as a parameter:

- the database, a function from a login to its rows;
- RSA decryption and password hashing (SHA-1 and Base64);
- the Blowfish block transform (a pair of functions, with an inverse law where round trips need it);
- host-name resolution and subnet matching;
- the clock;
- random numbers;
- the platform charset.

Java `int` and `long` are unbounded integers with explicit wrap-around (`Wire.Wrap32`, `Wire.Wrap64`). Java `String`s are sequences of UTF-16 code units.

Where the code and its natural reading differ, the model follows the code:

- The checksum and XOR-pass loop bounds ignore the offset.
- The /24, /16 and /8 wildcard ban lookups and `removeBanForAddress` use text keys in an address-keyed map, so they never match. The ban key type has separate address and text cases to show this.
- An expired ban found through a wildcard would remove the exact address's entry.
- `readS` without a terminator returns the decoded rest of the frame and leaves the cursor where it was.
- `compileHtml` looks for the placeholder `%var` + i + `%`.
- The reason `REASON_ALREADY_LOGGED8IN` used by `GameServerAuth` does not exist; it is taken as `REASON_ALREADY_LOGGED_IN` (7).
- The one-time password is assembled from sign-extended bytes.
- `synchronized` blocks become atomic methods.

Paths below are relative to the repository root.

## Model

| member | source | states |
|---|---|---|
| Wire.Wrap32 | src/main/java/com/l2jserver/util/crypt/NewCrypt.java:158-186 | The value is a Java `int` congruent to the input modulo 2^32, and equals the input when it is already in range: Java's `int` overflow. |
| Wire.Wrap64 | src/main/java/com/l2jserver/login/network/L2LoginClient.java:266-277 | The value is a Java `long` congruent to the input modulo 2^64, and equals the input when it is already in range. |
| Wire.JavaDiv | src/main/java/com/l2jserver/login/network/serverpackets/ServerList.java:164-167 | Division truncates toward zero: the Euclidean quotient for a non-negative dividend, minus the quotient of the negation otherwise, with the remainder bound on the matching side. |
| Wire.XorInvolution | src/main/java/com/l2jserver/util/crypt/NewCrypt.java:65-94 | XOR with the same word twice gives the word back. |
| Wire.XorCancel | src/main/java/com/l2jserver/util/crypt/NewCrypt.java:65-94 | XOR with a fixed word is injective, so two words with equal XORs are equal. |
| Wire.U16RoundTrip | src/main/java/com/l2jserver/util/network/packets/BaseRecievePacket.java:55-60 | Reading the two bytes written for a short gives its low 16 bits. |
| Wire.U32RoundTrip | src/main/java/com/l2jserver/util/network/packets/BaseRecievePacket.java:40-47 | Reading the four bytes written for an unsigned 32-bit word gives it back. |
| Wire.I32RoundTrip | src/main/java/com/l2jserver/util/network/packets/BaseRecievePacket.java:40-47 | Reading back the four little-endian bytes of any Java `int` gives that `int`. |
| Wire.I64RoundTrip | src/main/java/com/l2jserver/util/network/packets/BaseRecievePacket.java:100-111 | Reading back the eight little-endian bytes of any Java `long` gives that `long`. |
| Wire.LE32Low | src/main/java/com/l2jserver/util/network/packets/BaseSendablePacket.java:40-46 | The four bytes written for any integer are those of its low 32 bits. |
| Wire.LE64Words | src/main/java/com/l2jserver/util/network/packets/BaseRecievePacket.java:100-111 | The two words of a `long`'s encoding are its low and high 32 bits. |
| Wire.Recombine64 | src/main/java/com/l2jserver/util/network/packets/BaseRecievePacket.java:100-111 | Recombining the low and high words of a `long` as `readQ` does gives the `long` back. |
| JavaText.Trim | src/main/java/com/l2jserver/login/network/clientpackets/RequestAuthLogin.java:124-133 | The result is the slice left after removing every unit up to U+0020 at both ends: no such unit remains at either end of a non-empty result. |
| JavaText.TrimNormal | src/main/java/com/l2jserver/login/network/clientpackets/RequestAuthLogin.java:124-133 | Trimming is idempotent, and lower-casing a trimmed string leaves it trimmed. |
| JavaText.TrimmedFixed | src/main/java/com/l2jserver/login/L2LoginServer.java:219-221 | A string with no white space at either end is its own trim. |
| JavaText.Lower | src/main/java/com/l2jserver/login/model/data/AccountInfo.java:47 | Each unit is lower-cased on its own and the length is kept. |
| JavaText.LowerIdempotent | src/main/java/com/l2jserver/login/model/data/AccountInfo.java:47 | Lower-casing twice is lower-casing once. |
| JavaText.ParseDecimal | src/main/java/com/l2jserver/login/LoginController.java:613-630 | Any parsed value lies in the requested range and comes from a non-empty string; `DecimalRoundTrip` gives the converse for printed numbers. |
| JavaText.DigitValue | src/main/java/com/l2jserver/login/LoginController.java:623 | `Character.digit` in radix 10: a value from 0 to 9 for a decimal digit of any script, -1 otherwise, and the distance from `0` for an ASCII digit. |
| JavaText.DigitZero | src/main/java/com/l2jserver/login/LoginController.java:623 | The zero found is that of a run of ten decimal digits holding the unit, or -1. |
| JavaText.ScriptDigits | src/main/java/com/l2jserver/login/LoginController.java:623 | Arabic-Indic, full-width and mixed Devanagari digits parse to their values, as `Integer.parseInt` reads them. |
| JavaText.ThreeDigits | src/main/java/com/l2jserver/login/L2LoginServer.java:233 | Three digits of any script have the value of a three-digit number. |
| JavaText.DecimalRoundTrip | src/main/java/com/l2jserver/login/LoginController.java:613-630 | Parsing the decimal text of a number in range gives the number back. |
| JavaText.IndexOf | src/main/java/com/l2jserver/util/network/packets/BaseRecievePacket.java:75-90 | The index is -1 exactly when the unit is absent; otherwise that position holds the unit and no earlier position does. |
| JavaText.PiecesJoin | src/main/java/com/l2jserver/login/LoginController.java:615 | Joining the pieces of a split with the separator rebuilds the string. |
| JavaText.PiecesFree | src/main/java/com/l2jserver/login/LoginController.java:615 | No piece of a split contains the separator. |
| JavaText.DropTrailingEmpty | src/main/java/com/l2jserver/login/LoginController.java:615 | The result is a prefix of the pieces that ends in a non-empty piece, and everything dropped is empty, as `String.split` drops trailing empty strings. |
| JavaText.FirstSpace | src/main/java/com/l2jserver/login/L2LoginServer.java:225 | The first white-space position: white space there and nowhere before it, or -1 when there is none. |
| JavaText.SkipSpaces | src/main/java/com/l2jserver/login/L2LoginServer.java:225 | The result is a suffix of the input that does not start with white space. |
| JavaText.Before | src/main/java/com/l2jserver/login/L2LoginServer.java:223 | The text before the first `#` is a prefix of the line and holds no `#`. |
| JavaText.ReplaceChar | src/main/java/com/l2jserver/util/Util.java:148-156 | Every occurrence of the target unit becomes the replacement, every other unit is kept, and the length is unchanged. |
| JavaText.ReplaceAbsent | src/main/java/com/l2jserver/login/mail/BaseMail.java:115-126 | Replacing a token that does not occur leaves the text unchanged. |
| JavaText.ReplaceBySelf | src/main/java/com/l2jserver/login/mail/BaseMail.java:115-126 | Replacing a token by itself leaves the text unchanged. |
| TextUtil.ReplaceIllegalCharacters | src/main/java/com/l2jserver/util/Util.java:148-156 | The result is `Sanitized(str)`: the input's length, each character in the illegal table replaced by `_` and every other character kept, so `SanitizedIdempotent` applies to it. |
| TextUtil.Sanitized | src/main/java/com/l2jserver/util/Util.java:148-156 | The specification of the replacement keeps the length. |
| TextUtil.SanitizedIdempotent | src/main/java/com/l2jserver/util/Util.java:43-60 | Sanitizing twice is sanitizing once, and no illegal character is left in the result. |
| ServerConfig.TypeBit | src/main/java/com/l2jserver/login/Config.java:261-293 | A name, after trim and lower-casing, contributes one of the eleven known bits (normal 0x01 to classic 0x400), or 0 when it is unknown. |
| ServerConfig.GetServerTypeId | src/main/java/com/l2jserver/login/Config.java:256-296 | The loop's result is the OR of every name's bit, and lies below 0x800. |
| ServerConfig.MaskBelow | src/main/java/com/l2jserver/login/Config.java:256-296 | No bit outside the eleven known ones is ever set. |
| ServerConfig.MaskAppend | src/main/java/com/l2jserver/login/Config.java:256-296 | The mask of two lists in a row is the OR of their masks. |
| ServerConfig.MaskOrderFree | src/main/java/com/l2jserver/login/Config.java:256-296 | The mask does not depend on the names' order or on repeated names. |
| ServerConfig.MaskHasEveryBit | src/main/java/com/l2jserver/login/Config.java:256-296 | Every name's bit is set in the mask. |
| ServerConfig.MaskZero | src/main/java/com/l2jserver/login/Config.java:256-296 | The mask is 0 exactly when no name is a known type, which covers an empty list. |
| ServerConfig.UnknownNamesMaskZero | src/main/java/com/l2jserver/login/Config.java:256-296 | Names of no known type give the mask 0. |
| Crypt.LoopEnd | src/main/java/com/l2jserver/util/crypt/NewCrypt.java:74-93 | Where a stride loop leaves its index: at the start when the start is past the bound, otherwise the first aligned position at or past the bound. |
| Crypt.XorWords | src/main/java/com/l2jserver/util/crypt/NewCrypt.java:74-93 | The XOR fold of the little-endian words of a range is a 32-bit word. |
| Crypt.WithChecksum | src/main/java/com/l2jserver/util/crypt/NewCrypt.java:111-137 | Appending the checksum keeps the array length. |
| Crypt.ChecksumAtZero | src/main/java/com/l2jserver/util/crypt/NewCrypt.java:73-93 | At offset 0 the checksum test holds exactly when the last word of the frame equals the XOR of all words before it. |
| Crypt.AppendTouchesLastWord | src/main/java/com/l2jserver/util/crypt/NewCrypt.java:133-136 | At offset 0, appending the checksum leaves every byte outside the frame's last word unchanged. |
| Crypt.ChecksumRoundTrip | src/main/java/com/l2jserver/util/crypt/NewCrypt.java:111-137 | The checksum test accepts what `appendChecksum` produced, at every offset and size the loops allow. |
| Crypt.XorWordsFrame | src/main/java/com/l2jserver/util/crypt/NewCrypt.java:74-93 | The checksum of a range depends only on the bytes of that range. |
| Crypt.XorWordsDetects | src/main/java/com/l2jserver/util/crypt/NewCrypt.java:74-93 | Changing exactly one word of a range changes its XOR fold. |
| Crypt.ChecksumDetectsAlteredWord | src/main/java/com/l2jserver/util/crypt/NewCrypt.java:65-94 | A checksummed frame with one payload word altered and the checksum word kept is rejected. |
| Crypt.LoadWord | src/main/java/com/l2jserver/util/crypt/NewCrypt.java:80-84 | The loaded value is the little-endian word at the index. |
| Crypt.StoreWord | src/main/java/com/l2jserver/util/crypt/NewCrypt.java:133-136 | The four bytes at the index become the little-endian bytes of the word; every other byte is kept. |
| Crypt.VerifyChecksum | src/main/java/com/l2jserver/util/crypt/NewCrypt.java:65-94 | The result is the checksum test on the array; a size that is not a multiple of 4, or is at most 4, is rejected. |
| Crypt.AppendChecksum | src/main/java/com/l2jserver/util/crypt/NewCrypt.java:111-137 | The array becomes the specification `WithChecksum` of its old contents. |
| Crypt.FoldWords | src/main/java/com/l2jserver/util/crypt/NewCrypt.java:74-93 | The loop stops where the stride loop ends and returns the XOR fold of the words it visited. |
| Crypt.RunningKey | src/main/java/com/l2jserver/util/crypt/NewCrypt.java:165-180 | The running key stays a 32-bit word. |
| Crypt.XorPass | src/main/java/com/l2jserver/util/crypt/NewCrypt.java:158-186 | The array after `encXORPass` keeps its length. |
| Crypt.XorPassFrame | src/main/java/com/l2jserver/util/crypt/NewCrypt.java:158-186 | `encXORPass` leaves the bytes before its first word, and the bytes after its key word, as they were. |
| Crypt.XorPassKey | src/main/java/com/l2jserver/util/crypt/NewCrypt.java:181-185 | The word at the loop's end holds the final running key. |
| Crypt.XorPassWord | src/main/java/com/l2jserver/util/crypt/NewCrypt.java:165-180 | Each word the loop visits becomes the original word XOR the running key that already includes that word. |
| Crypt.RunningKeyStep | src/main/java/com/l2jserver/util/crypt/NewCrypt.java:171-172 | One more word adds its value to the running key modulo 2^32. |
| Crypt.EncXorPass | src/main/java/com/l2jserver/util/crypt/NewCrypt.java:158-186 | With the loop bound `size - 8` taken as written, the array becomes `XorPass` of its old contents, starting at offset + 4 with the key's 32-bit pattern. |
| Crypt.XorLoop | src/main/java/com/l2jserver/util/crypt/NewCrypt.java:163-180 | The loop stops at its end, the key equals the running key there, the visited words hold their encoded values, and every later byte is unchanged. |
| Crypt.XorStep | src/main/java/com/l2jserver/util/crypt/NewCrypt.java:165-179 | One turn of the loop: the word enters the key and is replaced by itself XOR the key; no other byte changes. |
| Crypt.KeyStep | src/main/java/com/l2jserver/util/crypt/NewCrypt.java:181-185 | The store after the loop puts the final key into the word at the loop's end. |
| Crypt.Ecb | src/main/java/com/l2jserver/util/crypt/NewCrypt.java:197-219 | The array after an ECB pass keeps its length. |
| Crypt.EcbBlocks | src/main/java/com/l2jserver/util/crypt/NewCrypt.java:197-219 | An ECB pass keeps the bytes before its start and from its end on, and replaces each visited block by the block function of its original contents. |
| Crypt.EcbOutside | src/main/java/com/l2jserver/util/crypt/NewCrypt.java:197-219 | An ECB pass leaves the bytes before its start and from its end on as they were. |
| Crypt.EcbBlock | src/main/java/com/l2jserver/util/crypt/NewCrypt.java:197-219 | Each visited block becomes the block function of its original contents. |
| Crypt.EcbRoundTrip | src/main/java/com/l2jserver/util/crypt/NewCrypt.java:197-219 | With an inverse block pair, decrypting what was encrypted over the same range restores the array. |
| Crypt.NewCrypt.constructor | src/main/java/com/l2jserver/util/crypt/NewCrypt.java:36-40 | The object holds the given block cipher and key. |
| Crypt.NewCrypt.Decrypt | src/main/java/com/l2jserver/util/crypt/NewCrypt.java:197-203 | The array becomes the ECB pass of `decryptBlock` at offset, offset + 8, ... below offset + size. |
| Crypt.NewCrypt.Crypt | src/main/java/com/l2jserver/util/crypt/NewCrypt.java:213-219 | The array becomes the ECB pass of `encryptBlock` at offset, offset + 8, ... below offset + size. |
| Crypt.NewCrypt.EncryptBlock | src/main/java/com/l2jserver/util/crypt/NewCrypt.java:213-219 | Only the eight bytes at the index change, to the encrypted block. |
| Crypt.NewCrypt.DecryptBlock | src/main/java/com/l2jserver/util/crypt/NewCrypt.java:197-203 | Only the eight bytes at the index change, to the decrypted block. |
| LoginCrypto.PaddedSize | src/main/java/com/l2jserver/util/crypt/LoginCrypt.java:98-118 | The padded size is a multiple of 8 in (s, s + 8], where s is size + 8 on the static path and size + 4 otherwise; an aligned s gets a whole extra block. |
| LoginCrypto.StaticFrame | src/main/java/com/l2jserver/util/crypt/LoginCrypt.java:100-113 | The first frame, the XOR chain then ECB under the static key, keeps the array length. |
| LoginCrypto.DynamicFrame | src/main/java/com/l2jserver/util/crypt/LoginCrypt.java:114-125 | A later frame, the checksum then ECB under the client's key, keeps the array length. |
| LoginCrypto.XorPassFits | src/main/java/com/l2jserver/util/crypt/LoginCrypt.java:107-112 | The XOR chain over a padded static frame stays inside the frame. |
| LoginCrypto.DynamicRoundTrip | src/main/java/com/l2jserver/util/crypt/LoginCrypt.java:71-84 | Decrypting a dynamic frame with the same key restores the checksummed plain frame, and its checksum is accepted. |
| LoginCrypto.DynamicFrameFits | src/main/java/com/l2jserver/util/crypt/LoginCrypt.java:114-125 | The checksum word and the blocks of a dynamic frame lie inside the frame. |
| LoginCrypto.DynamicKeepsPayload | src/main/java/com/l2jserver/util/crypt/LoginCrypt.java:114-125 | At offset 0 a checksummed frame keeps its payload bytes in place. |
| LoginCrypto.LoginCrypt.constructor | src/main/java/com/l2jserver/util/crypt/LoginCrypt.java:58-61 | A new cipher is on the static path and has no dynamic cipher yet. |
| LoginCrypto.LoginCrypt.SetKey | src/main/java/com/l2jserver/util/crypt/LoginCrypt.java:58-61 | A fresh dynamic cipher under the key replaces the old one; the static flag is kept. |
| LoginCrypto.LoginCrypt.Decrypt | src/main/java/com/l2jserver/util/crypt/LoginCrypt.java:71-84 | A size that is not a multiple of 8, or a frame past the array, throws with the array unchanged; otherwise the array is deciphered by the dynamic cipher and the result is the checksum test. |
| LoginCrypto.LoginCrypt.Encrypt | src/main/java/com/l2jserver/util/crypt/LoginCrypt.java:95-127 | A frame past the array throws "packet too long" with the array and the static flag unchanged; otherwise the first call seals a static frame and later ones a dynamic frame, the padded size comes back and the static flag is cleared. |
| LoginCrypto.SealStatic | src/main/java/com/l2jserver/util/crypt/LoginCrypt.java:107-113 | The array becomes the static frame: the XOR chain with the seed, then ECB under the static key. |
| LoginCrypto.SealDynamic | src/main/java/com/l2jserver/util/crypt/LoginCrypt.java:114-125 | The array becomes the dynamic frame: the checksum, then ECB under the client's key. |
| Packets.Utf16 | src/main/java/com/l2jserver/util/network/packets/BaseSendablePacket.java:72-88 | The UTF-16LE encoding has two bytes per code unit. |
| Packets.FromUtf16 | src/main/java/com/l2jserver/util/network/packets/BaseRecievePacket.java:75-90 | Decoding gives one code unit per two bytes, with an odd trailing byte as one more unit. |
| Packets.Utf16Unit | src/main/java/com/l2jserver/util/network/packets/BaseSendablePacket.java:72-88 | Code unit i sits in bytes 2i and 2i + 1, low byte first. |
| Packets.Utf16RoundTrip | src/main/java/com/l2jserver/util/network/packets/BaseRecievePacket.java:75-90 | Decoding the UTF-16LE bytes of a string gives the string back. |
| Packets.DecodeEncoded | src/main/java/com/l2jserver/util/network/packets/BaseRecievePacket.java:75-90 | Decoding a string's bytes followed by anything starts with that string. |
| Packets.StringField | src/main/java/com/l2jserver/util/network/packets/BaseSendablePacket.java:72-88 | The bytes `writeS` appends: the code units and a zero unit, or only the zero unit for null. |
| Packets.Sealed | src/main/java/com/l2jserver/util/network/packets/BaseSendablePacket.java:119-136 | After `getBytes` the stream length is a multiple of 8 and at least 4 more than before, the earlier bytes are kept and the rest are zeros. |
| Packets.SealedIsPadded | src/main/java/com/l2jserver/util/network/packets/BaseSendablePacket.java:119-136 | A sealed stream is the stream followed by zeros. |
| Packets.SealTwice | src/main/java/com/l2jserver/util/network/packets/BaseSendablePacket.java:124 | Calling `getBytes` twice reserves a second checksum word and adds a block. |
| Packets.Writer.constructor | src/main/java/com/l2jserver/util/network/packets/BaseSendablePacket.java:35-38 | A new writer holds no bytes. |
| Packets.Writer.WriteC | src/main/java/com/l2jserver/util/network/packets/BaseSendablePacket.java:54-57 | Appends the low byte of the value. |
| Packets.Writer.WriteH | src/main/java/com/l2jserver/util/network/packets/BaseSendablePacket.java:48-52 | Appends the two low bytes of the value, low first. |
| Packets.Writer.WriteD | src/main/java/com/l2jserver/util/network/packets/BaseSendablePacket.java:40-46 | Appends the four bytes of the `int`, low first. |
| Packets.Writer.WriteQ | src/main/java/com/l2jserver/util/network/packets/BaseSendablePacket.java:102-112 | Appends the eight bytes of the `long`, low first. |
| Packets.Writer.WriteS | src/main/java/com/l2jserver/util/network/packets/BaseSendablePacket.java:72-88 | Appends the string field. |
| Packets.Writer.WriteB | src/main/java/com/l2jserver/util/network/packets/BaseSendablePacket.java:90-100 | Appends the bytes unchanged. |
| Packets.Writer.Length | src/main/java/com/l2jserver/util/network/packets/BaseSendablePacket.java:114-117 | The length is the stream size plus 2. |
| Packets.Writer.GetBytes | src/main/java/com/l2jserver/util/network/packets/BaseSendablePacket.java:119-136 | The stream becomes its sealed form and is returned. |
| Packets.WritesAppend | src/main/java/com/l2jserver/util/network/packets/BaseSendablePacket.java:40-112 | Appending a field never changes the earlier bytes. |
| Packets.TakeC | src/main/java/com/l2jserver/util/network/packets/BaseRecievePacket.java:49-53 | A byte is read exactly when one is left; it lies in 0..255 and the cursor moves by 1. |
| Packets.TakeH | src/main/java/com/l2jserver/util/network/packets/BaseRecievePacket.java:55-60 | A short is read exactly when two bytes are left; it lies in 0..65535 and the cursor moves by 2. |
| Packets.TakeD | src/main/java/com/l2jserver/util/network/packets/BaseRecievePacket.java:40-47 | An `int` is read exactly when four bytes are left and the cursor moves by 4. |
| Packets.TakeQ | src/main/java/com/l2jserver/util/network/packets/BaseRecievePacket.java:100-111 | A `long` is read exactly when eight bytes are left and the cursor moves by 8. |
| Packets.TakeB | src/main/java/com/l2jserver/util/network/packets/BaseRecievePacket.java:92-98 | `readB(n)` succeeds exactly when the n bytes fit; it returns them and moves the cursor by n. |
| Packets.TakeS | src/main/java/com/l2jserver/util/network/packets/BaseRecievePacket.java:75-90 | `readS` fails only past the end; the cursor either stays or moves past the string and its zero unit. |
| Packets.TakeSBytes | src/main/java/com/l2jserver/util/network/packets/BaseRecievePacket.java:75-90 | When `readS` moves the cursor, the bytes passed are the string's encoding and a zero unit; when it does not, the rest of the frame holds no zero unit and is the string. |
| Packets.TerminatedString | src/main/java/com/l2jserver/util/network/packets/BaseRecievePacket.java:80-84 | The bytes in front of the first zero unit encode the units before it. |
| Packets.Reader.constructor | src/main/java/com/l2jserver/util/network/packets/BaseRecievePacket.java:34-38 | A new reader's cursor starts at 1, past the opcode. |
| Packets.Reader.ReadC | src/main/java/com/l2jserver/util/network/packets/BaseRecievePacket.java:49-53 | The result and the new cursor are those of `TakeC`; a failed read leaves the cursor where the Java read leaves it when it throws. |
| Packets.Reader.ReadH | src/main/java/com/l2jserver/util/network/packets/BaseRecievePacket.java:55-60 | The result and the new cursor are those of `TakeH`; a failed read leaves the cursor where the Java read leaves it. |
| Packets.Reader.ReadD | src/main/java/com/l2jserver/util/network/packets/BaseRecievePacket.java:40-47 | The result and the new cursor are those of `TakeD`; a failed read leaves the cursor where the Java read leaves it. |
| Packets.Reader.ReadQ | src/main/java/com/l2jserver/util/network/packets/BaseRecievePacket.java:100-111 | The result and the new cursor are those of `TakeQ`; a failed read leaves the cursor where the Java read leaves it. |
| Packets.Reader.ReadB | src/main/java/com/l2jserver/util/network/packets/BaseRecievePacket.java:92-98 | The result and the new cursor are those of `TakeB`; a failed copy leaves the cursor. |
| Packets.Reader.ReadS | src/main/java/com/l2jserver/util/network/packets/BaseRecievePacket.java:75-90 | The result and the new cursor are those of `TakeS`. |
| Packets.ReadWrittenC | src/main/java/com/l2jserver/util/network/packets/BaseRecievePacket.java:49-53 | `readC` after `writeC(v)` gives the low byte of v. |
| Packets.ReadWrittenH | src/main/java/com/l2jserver/util/network/packets/BaseRecievePacket.java:55-60 | `readH` after `writeH(v)` gives the low 16 bits of v. |
| Packets.ReadWrittenD | src/main/java/com/l2jserver/util/network/packets/BaseRecievePacket.java:40-47 | `readD` after `writeD(v)` gives v back, for every `int`. |
| Packets.ReadWrittenQ | src/main/java/com/l2jserver/util/network/packets/BaseRecievePacket.java:100-111 | `readQ` after `writeQ(v)` gives v back, for every `long`. |
| Packets.ReadWrittenB | src/main/java/com/l2jserver/util/network/packets/BaseRecievePacket.java:92-98 | `readB(n)` after `writeB` of n bytes gives them back. |
| Packets.ReadWrittenS | src/main/java/com/l2jserver/util/network/packets/BaseRecievePacket.java:75-90 | `readS` after `writeS(t)`, for t without a zero unit, gives t back and moves past its terminator. |
| LoginServerPackets.LoginServerFail | src/main/java/com/l2jserver/login/network/loginserverpackets/LoginServerFail.java:37-47 | The content is 8 bytes: opcode 0x01, the reason's low byte, then zeros; reading it back gives the reason. |
| LoginServerPackets.InitLS | src/main/java/com/l2jserver/login/network/loginserverpackets/InitLS.java:35-47 | Opcode 0x00, then the revision, the key length and the key read back in that order, then zero padding to a multiple of 8. |
| LoginServerPackets.PublicKey | src/main/java/com/l2jserver/login/network/loginserverpackets/PublicKey.java:35-46 | Opcode 0x00, then the key length and the key read back, then zero padding to a multiple of 8. |
| LoginServerPackets.PlayerAuthResponse | src/main/java/com/l2jserver/login/network/loginserverpackets/PlayerAuthResponse.java:28-39 | Opcode 0x03, the account's string field and 1 or 0 for the response, then zero padding to a multiple of 8. |
| LoginServerPackets.PlayerAuthResponseReadBack | src/main/java/com/l2jserver/login/network/loginserverpackets/PlayerAuthResponse.java:28-39 | The game server reads the account and the response back from a written `PlayerAuthResponse`. |
| Mail.VarToken | src/main/java/com/l2jserver/login/mail/BaseMail.java:119-122 | A placeholder starts with `%`. |
| Mail.CompileHtml | src/main/java/com/l2jserver/login/mail/BaseMail.java:115-126 | The loop's result is the template with every argument placeholder replaced in order, then the account placeholder. |
| Mail.PlainTemplate | src/main/java/com/l2jserver/login/mail/BaseMail.java:115-126 | A template without `%` comes back unchanged, whatever the arguments. |
| Mail.SelfFill | src/main/java/com/l2jserver/login/mail/BaseMail.java:115-126 | Filling every placeholder with itself leaves the template unchanged. |
| Mail.ReplaceWhole | src/main/java/com/l2jserver/login/mail/BaseMail.java:115-126 | A template that is exactly the token becomes the replacement. |
| Mail.AccountAfterVars | src/main/java/com/l2jserver/login/mail/BaseMail.java:115-126 | The account name is filled in last, so an argument that is itself the account placeholder ends up as the account name. |
| Mail.BaseMail.constructor | src/main/java/com/l2jserver/login/mail/BaseMail.java:66-113 | The message is built only when both the address and the template exist, with the compiled text. |
| Mail.BaseMail.Run | src/main/java/com/l2jserver/login/mail/BaseMail.java:151-164 | The message is sent exactly when one was built. |
| Flood.AdmitRefuses | src/main/java/com/l2jserver/login/FloodProtectedListener.java:61-78 | A socket is refused exactly when protection is on, its address is recorded and the flood test holds; the entry then keeps its count, takes the time and is marked flooding. |
| Flood.AdmitAccepts | src/main/java/com/l2jserver/login/FloodProtectedListener.java:61-93 | An accepted socket leaves its address recorded with the time, not flooding, with a count of 1 for a first connection or one more, at most the per-address limit, for a repeat; other addresses are untouched. |
| Flood.BurstRefused | src/main/java/com/l2jserver/login/FloodProtectedListener.java:66 | A second connection within the fast-connection time of the last one is always refused. |
| Flood.CountedKept | src/main/java/com/l2jserver/login/FloodProtectedListener.java:53-151 | Admission and release keep every recorded address at a count of at least 1. |
| Flood.AdmitThenRelease | src/main/java/com/l2jserver/login/FloodProtectedListener.java:132-151 | Releasing an accepted connection restores every address's count, and a first connection's entry disappears again. |
| Flood.ForeignConnection.constructor | src/main/java/com/l2jserver/login/FloodProtectedListener.java:123-127 | A new entry has count 1, the given time and no flooding. |
| Flood.FloodProtectedListener.constructor | src/main/java/com/l2jserver/login/FloodProtectedListener.java:40-50 | A new listener has no entries and no clients. |
| Flood.FloodProtectedListener.Accept | src/main/java/com/l2jserver/login/FloodProtectedListener.java:53-112 | The table becomes the admission specification's table, and the client is added exactly when it is admitted. |
| Flood.FloodProtectedListener.AcceptRepeat | src/main/java/com/l2jserver/login/FloodProtectedListener.java:64-85 | A repeat address's entry becomes the admission specification's entry. |
| Flood.FloodProtectedListener.RemoveFloodProtection | src/main/java/com/l2jserver/login/FloodProtectedListener.java:132-151 | The table becomes the release specification's table: the count drops, and the entry goes at 0. |
| Registry.StatusNamesDistinct | src/main/java/com/l2jserver/login/GameServerTable.java:441-460 | The six known status codes have six different names, none of them "Unknown". |
| Registry.MatchIndex | src/main/java/com/l2jserver/login/GameServerTable.java:618-628 | The position of the first address whose subnet contains the client's address, or -1 when none does. |
| Registry.HostPairsAll | src/main/java/com/l2jserver/login/GameServerThread.java:287-308 | With every subnet accepted, the address list holds exactly the consecutive (hosts[2j], hosts[2j+1]) pairs. |
| Registry.HostPairsBound | src/main/java/com/l2jserver/login/GameServerThread.java:287-308 | Every installed address has an accepted subnet from the host list, and there is at most one per pair. |
| Registry.Framed | src/main/java/com/l2jserver/login/GameServerThread.java:234-259 | A frame is two bytes longer than its body. |
| Registry.FramedLayout | src/main/java/com/l2jserver/login/GameServerThread.java:234-259 | The length word holds the frame length, and the rest is the checksummed, enciphered body. |
| Registry.GameServerInfo.constructor | src/main/java/com/l2jserver/login/GameServerTable.java:336-342 | A new entry has the given id, hex id and connection; it is down, not authed and has no addresses. |
| Registry.GameServerInfo.SetDown | src/main/java/com/l2jserver/login/GameServerTable.java:594-600 | The entry is not authed, port 0, without connection and down; id, addresses, type, age, brackets and capacity are kept. |
| Registry.GameServerInfo.CurrentPlayerCount | src/main/java/com/l2jserver/login/GameServerTable.java:466-473 | 0 without a connection, otherwise the size of the connection's online set. |
| Registry.GameServerInfo.AddServerAddress | src/main/java/com/l2jserver/login/GameServerTable.java:608-611 | The pair is appended to the address list. |
| Registry.GameServerInfo.ClearServerAddresses | src/main/java/com/l2jserver/login/GameServerTable.java:648-651 | The address list becomes empty. |
| Registry.GameServerThread.constructor | src/main/java/com/l2jserver/login/GameServerThread.java:210-229 | A new connection is CONNECTED with the initial key, no entry, nobody online and nothing sent or requested. |
| Registry.GameServerThread.AddAccountOnGameServer | src/main/java/com/l2jserver/login/GameServerThread.java:359-362 | The account joins the online set, which then has it; the count grows by one unless it was already there. |
| Registry.GameServerThread.RemoveAccountOnGameServer | src/main/java/com/l2jserver/login/GameServerThread.java:364-367 | The account leaves the online set, which then lacks it; the count drops by one only if it was there. |
| Registry.GameServerThread.ServerId | src/main/java/com/l2jserver/login/GameServerThread.java:340-347 | -1 without an entry, otherwise the entry's id. |
| Registry.GameServerThread.SetBlowFish | src/main/java/com/l2jserver/login/GameServerThread.java:354-357 | The connection's cipher is replaced. |
| Registry.GameServerThread.SetLoginConnectionState | src/main/java/com/l2jserver/login/GameServerThread.java:374-377 | The state is replaced. |
| Registry.GameServerThread.SendPacket | src/main/java/com/l2jserver/login/GameServerThread.java:234-259 | The framed, enciphered body is appended to what was sent. |
| Registry.GameServerThread.ForceClose | src/main/java/com/l2jserver/login/GameServerThread.java:187-199 | A `LoginServerFail` frame with the reason is sent, then the connection is closed. |
| Registry.GameServerThread.KickPlayer | src/main/java/com/l2jserver/login/GameServerThread.java:269-272 | The kick request for the account is recorded. |
| Registry.GameServerThread.RequestCharacters | src/main/java/com/l2jserver/login/GameServerThread.java:274-277 | The request for the account's characters is recorded after the earlier ones. |
| Registry.GameServerThread.SetGameHosts | src/main/java/com/l2jserver/login/GameServerThread.java:287-308 | The entry's address list becomes the accepted host pairs. |
| Registry.GameServerThread.AttachGameServerInfo | src/main/java/com/l2jserver/login/GameServerThread.java:177-185 | The connection and the entry point at each other; the entry is authed with the given port, hosts and capacity, its id and status kept. |
| Registry.GameServerThread.Teardown | src/main/java/com/l2jserver/login/GameServerThread.java:144-153 | An authed connection's entry is set down, otherwise the entry's state is kept; the connection's flood entry is released. |
| Registry.GameServerTable.constructor | src/main/java/com/l2jserver/login/GameServerTable.java:66-76 | A new table holds the configured names and ids, and exactly the ids the `gameservers` rows name, each with the down entry of its last row. |
| Registry.GameServerTable.LoadRegisteredGameServers | src/main/java/com/l2jserver/login/GameServerTable.java:133-150 | Each row's id gets a fresh down, unauthed, unlinked entry with the hex id of the last row naming it; other ids keep their entries. |
| Registry.GameServerTable.PutRow | src/main/java/com/l2jserver/login/GameServerTable.java:143 | One row puts a fresh down entry with its id and hex id under its id. |
| Registry.LastHexIsLast | src/main/java/com/l2jserver/login/GameServerTable.java:138-144 | An id has a row exactly when some row names it, and a row that no later row overrides supplies its hex id: the later `put` wins. |
| Registry.GameServerTable.RegisteredGameServerById | src/main/java/com/l2jserver/login/GameServerTable.java:166-169 | The entry for the id, or null exactly when there is none. |
| Registry.GameServerTable.Register | src/main/java/com/l2jserver/login/GameServerTable.java:210-222 | Succeeds exactly when the id is free and then binds it; a taken id leaves the table unchanged. |
| Registry.GameServerTable.RegisterWithFirstAvailableId | src/main/java/com/l2jserver/login/GameServerTable.java:186-202 | Succeeds exactly when some named id is free; it then binds the entry to the first free id in the names' iteration order and stores that id in the entry; otherwise nothing changes. |
| Registry.GameServerTable.RegisterServerOnDB | src/main/java/com/l2jserver/login/GameServerTable.java:239-254 | A free id gets a new, down, unauthed entry with the hex id and no other binding changes; a taken id changes nothing. |
| Login.NewAccountInfo | src/main/java/com/l2jserver/login/model/data/AccountInfo.java:33-51 | Refuses a null or empty login or hash; otherwise the login is stored lower-cased, the levels unchanged, and the hash check is exact string equality. |
| Login.ValidIpTrue | src/main/java/com/l2jserver/login/LoginController.java:613-630 | The validator answers true exactly when the text splits into four dot-separated parts, each a number in 0..255. |
| Login.PartsValidTrue | src/main/java/com/l2jserver/login/LoginController.java:619-628 | The loop over the parts answers true exactly when every part reads as a byte value. |
| Login.HostAddressValid | src/main/java/com/l2jserver/login/LoginController.java:613-630 | Every printed IPv4 address passes the validator. |
| Login.HostAddressParts | src/main/java/com/l2jserver/login/LoginController.java:615 | A printed address splits back into its four decimal parts. |
| Login.IsValidIPAddress | src/main/java/com/l2jserver/login/LoginController.java:613-630 | The loop's answer is the validator specification's answer, including the number format error. |
| Login.WildcardKeys | src/main/java/com/l2jserver/login/LoginController.java:335-343 | The three wildcard keys are text keys. |
| Login.FirstHit | src/main/java/com/l2jserver/login/LoginController.java:331-344 | No entry is found exactly when none of the keys is in the table. |
| Login.BanLookupExact | src/main/java/com/l2jserver/login/LoginController.java:329-356 | In a table of address keys only the exact address can be found: the text-keyed wildcard lookups always miss. |
| Login.ExpiredWildcardStays | src/main/java/com/l2jserver/login/LoginController.java:345-350 | An expired entry found under a wildcard key is not removed, since the removal targets the exact address. |
| Login.FailuresCount | src/main/java/com/l2jserver/login/LoginController.java:174-202 | Below the threshold, k failures from a fresh address count k and ban nobody. |
| Login.FailuresBan | src/main/java/com/l2jserver/login/LoginController.java:174-202 | The threshold-th failure from a fresh, unbanned address bans it until now + `LOGIN_BLOCK_AFTER_BAN` seconds and clears its counter. |
| Login.FailureKeepsGuard | src/main/java/com/l2jserver/login/LoginController.java:174-202 | A failure keeps the guard invariant: every counter stays between 1 and the threshold minus 1, and every ban key is an address. |
| Login.ListsAdmitCases | src/main/java/com/l2jserver/login/LoginController.java:577-591 | Empty lists admit every address; an address on the deny list never passes; a non-empty allow list admits only its addresses. |
| Login.CheckRow | src/main/java/com/l2jserver/login/LoginController.java:227-244 | A row that yields an account has the given password hash; the address's counter is cleared and the bans are kept. |
| Login.Retrieve | src/main/java/com/l2jserver/login/LoginController.java:212-279 | An account is returned only with a matching hash, the counter cleared; no account means either nothing changed or exactly one failure was recorded. |
| Login.RetrieveWrongPassword | src/main/java/com/l2jserver/login/LoginController.java:235-240 | A stored account with a different hash is refused and one failure is recorded. |
| Login.RetrieveUnknownNoCreate | src/main/java/com/l2jserver/login/LoginController.java:248-253 | An unknown login with account creation off is refused and one failure is recorded. |
| Login.L2LoginClient.constructor | src/main/java/com/l2jserver/login/network/L2LoginClient.java:80-90 | A new client is CONNECTED with the start time, the session id and the key, a static-path cipher, no account, no session key and nothing sent. |
| Login.L2LoginClient.Decrypt | src/main/java/com/l2jserver/login/network/L2LoginClient.java:93-113 | A bad size or a frame past the buffer fails; otherwise the frame is deciphered and the answer is the checksum test; a failure closes the connection. |
| Login.L2LoginClient.Encrypt | src/main/java/com/l2jserver/login/network/L2LoginClient.java:116-130 | Succeeds exactly when the padded frame fits, and then moves the position past it; the first frame is static, later ones dynamic; a failure leaves the buffer and the flag unchanged. |
| Login.L2LoginClient.SetState | src/main/java/com/l2jserver/login/network/L2LoginClient.java:137-140 | The state is replaced. |
| Login.L2LoginClient.SetAccount | src/main/java/com/l2jserver/login/network/L2LoginClient.java:162-165 | The account is replaced. |
| Login.L2LoginClient.SetSessionKey | src/main/java/com/l2jserver/login/network/L2LoginClient.java:202-205 | The session key is replaced. |
| Login.L2LoginClient.SetJoinedGS | src/main/java/com/l2jserver/login/network/L2LoginClient.java:197-200 | The joined flag is replaced. |
| Login.L2LoginClient.SendPacket | src/main/java/com/l2jserver/login/network/L2LoginClient.java:217-220 | The packet is appended to what was sent. |
| Login.L2LoginClient.Close | src/main/java/com/l2jserver/login/network/L2LoginClient.java:222-235 | The packet, if any, is the last one sent, and the connection is closed. |
| Login.L2LoginClient.SetCharsOnServ | src/main/java/com/l2jserver/login/network/L2LoginClient.java:237-244 | The map is created on first use and the server's entry is overwritten. |
| Login.L2LoginClient.SerCharsWaitingDelOnServ | src/main/java/com/l2jserver/login/network/L2LoginClient.java:251-258 | The deletion map is created on first use and the server's entry is overwritten. |
| Login.L2LoginClient.OnDisconnection | src/main/java/com/l2jserver/login/network/L2LoginClient.java:266-277 | The account's claim is dropped unless the client joined a game server and the login timeout has not passed. |
| Login.Get | src/main/java/com/l2jserver/login/LoginController.java:331-344 | The lookup answers the entry exactly when the key is present, as `Map.get` does. |
| Login.LoginController.constructor | src/main/java/com/l2jserver/login/LoginController.java:82-109 | A new controller has no claims, counters or bans. |
| Login.LoginController.AssignSessionKeyToClient | src/main/java/com/l2jserver/login/LoginController.java:146-153 | The key is built from the four numbers, and the account is claimed by the client. |
| Login.LoginController.RemoveAuthedLoginClient | src/main/java/com/l2jserver/login/LoginController.java:155-162 | The account's claim is removed; a null account changes nothing. |
| Login.LoginController.GetAuthedClient | src/main/java/com/l2jserver/login/LoginController.java:164-167 | The claiming client, or null exactly when there is none. |
| Login.LoginController.ClearFailedLoginAttemps | src/main/java/com/l2jserver/login/LoginController.java:204-210 | The address's counter is removed. |
| Login.LoginController.AddBanForAddress | src/main/java/com/l2jserver/login/LoginController.java:314-317 | An existing entry is kept; otherwise the address is banned until now + duration, with `long` overflow. |
| Login.LoginController.AddBanForText | src/main/java/com/l2jserver/login/LoginController.java:324-327 | Succeeds exactly when the host resolves; the expiry is stored as given, and an existing entry is kept. |
| Login.LoginController.RecordFailedLoginAttemp | src/main/java/com/l2jserver/login/LoginController.java:174-202 | The counters and bans become those of the failure specification. |
| Login.LoginController.CheckAccountRow | src/main/java/com/l2jserver/login/LoginController.java:227-244 | The answer and the new counters and bans are those of the row check specification. |
| Login.LoginController.RetriveAccountInfo | src/main/java/com/l2jserver/login/LoginController.java:212-279 | The answer and the new counters and bans are those of the retrieval specification. |
| Login.LoginController.IsBannedAddress | src/main/java/com/l2jserver/login/LoginController.java:329-356 | No entry: not banned. An entry with 0 < expiry < now: not banned, and the exact address's entry is removed. Otherwise banned and nothing changes. |
| Login.LoginController.RemoveBanForAddress | src/main/java/com/l2jserver/login/LoginController.java:368-371 | The removal uses the address's text as key, which no entry has: it never removes anything and answers false. |
| Login.LoginController.RemoveBanForText | src/main/java/com/l2jserver/login/LoginController.java:378-388 | An unknown host answers false; a known one misses like the overload above; nothing changes. |
| Login.LoginController.GetKeyForAccount | src/main/java/com/l2jserver/login/LoginController.java:390-398 | The session key of the client holding the claim, or none without a claim. |
| Login.LoginController.GetCharactersOnAccount | src/main/java/com/l2jserver/login/LoginController.java:428-438 | Every connection of the table gains one request for the account per authed entry it serves, in the table's order, and no other request. |
| Login.AskedOnce | src/main/java/com/l2jserver/login/LoginController.java:428-438 | With each id listed once and no connection serving two entries, an entry's connection is asked once when the entry is authed and never otherwise. |
| Login.AskedNone | src/main/java/com/l2jserver/login/LoginController.java:428-438 | A connection that serves no entry is never asked. |
| Login.LoginController.GetAccountOnGameServer | src/main/java/com/l2jserver/login/LoginController.java:414-426 | Null exactly when no connection has the account online; otherwise the first entry in iteration order that has it. |
| Login.LoginController.IsAccountInAnyGameServer | src/main/java/com/l2jserver/login/LoginController.java:400-412 | True exactly when some connection has the account online. |
| Login.LoginController.IsLoginPossible | src/main/java/com/l2jserver/login/LoginController.java:445-470 | True exactly when the server is registered and authed and either has room and is not GM-only, or the client has a positive access level. |
| Login.LoginController.SetCharactersOnServer | src/main/java/com/l2jserver/login/LoginController.java:506-524 | The counts are stored on the claiming client: a positive count and a non-empty deletion list each overwrite the server's entry; zero and empty leave them. |
| Login.LoginController.CanCheckin | src/main/java/com/l2jserver/login/LoginController.java:543-611 | The answer is the list rule on the rows; when admitted the client takes the account's access level and last server, and otherwise keeps its own. |
| Login.LoginController.TryCheckinAccount | src/main/java/com/l2jserver/login/LoginController.java:281-306 | A negative access level is a ban; a refused check-in is a wrong password; then online on a game server, claimed on the login server, or success; the claim is taken only on success. |
| Login.ReadRow | src/main/java/com/l2jserver/login/LoginController.java:556-573 | One row's effect is the row specification's: skipped when invalid, otherwise added to the allow or deny list. |
| Login.ReadIpLists | src/main/java/com/l2jserver/login/LoginController.java:547-575 | The loop's result is the list specification over all rows. |
| Login.ReadListsAbort | src/main/java/com/l2jserver/login/LoginController.java:543-611 | An exception on any row aborts the whole read. |
| BanFile.ParseBanLine | src/main/java/com/l2jserver/login/L2LoginServer.java:218-260 | A trimmed line that is empty or starts with `#` is skipped; an entry's address is non-empty and holds no `#` and no white space, and its expiry is a `long`. |
| BanFile.FirstToken | src/main/java/com/l2jserver/login/L2LoginServer.java:223-226 | A line that is not skipped keeps a non-empty text before its first `#`, whose first token ends at its first white space. |
| BanFile.LoadBanFile | src/main/java/com/l2jserver/login/L2LoginServer.java:209-271 | The bans become those after applying each parsed line in order. |
| BanFile.StepKeeps | src/main/java/com/l2jserver/login/L2LoginServer.java:209-271 | One line never changes or removes an entry, and an entry line whose address resolves leaves it banned. |
| BanFile.BansAfterKeeps | src/main/java/com/l2jserver/login/L2LoginServer.java:209-271 | Loading never changes or removes a ban that was already there. |
| BanFile.BansAfterCovers | src/main/java/com/l2jserver/login/L2LoginServer.java:209-271 | Every line that parses to a resolvable address leaves that address banned. |
| BanFile.BanLineRoundTrip | src/main/java/com/l2jserver/login/L2LoginServer.java:218-260 | The line "address expiry" parses back to that address's text and that expiry. |
| ServerPackets.PlayFailCode | src/main/java/com/l2jserver/login/network/serverpackets/PlayFail.java:25-75 | Every reason's code lies in 0x00..0x38 and decodes back to the reason, so no two reasons share a code. |
| ServerPackets.AccountKickedCode | src/main/java/com/l2jserver/login/network/serverpackets/AccountKicked.java:28-43 | Each code is 0x01, 0x08, 0x10 or 0x20 and decodes back to the reason. |
| ServerPackets.WritePlayFail | src/main/java/com/l2jserver/login/network/serverpackets/PlayFail.java:86-90 | Two bytes: opcode 0x06 and the code, which decodes back to the reason. |
| ServerPackets.WriteAccountKicked | src/main/java/com/l2jserver/login/network/serverpackets/AccountKicked.java:57-61 | Five bytes: opcode 0x02 and the code as an `int`, which decodes back to the reason. |
| ServerPackets.WriteLoginOk | src/main/java/com/l2jserver/login/network/serverpackets/LoginOk.java:47-59 | 49 bytes: opcode 0x03, the login pair of the session key, the constant 0x3ea at byte 17 and zeros elsewhere. |
| ServerPackets.DisplayedStatus | src/main/java/com/l2jserver/login/network/serverpackets/ServerList.java:108 | The status shown is the real one, except that a GM-only server shows as down to a client without access. |
| ServerPackets.NewServerData | src/main/java/com/l2jserver/login/network/serverpackets/ServerList.java:84-110 | A record copies id, port, pvp, type, capacity, brackets and the current count, writes age 0, shows the displayed status, and falls back to 127.0.0.1 for an unresolvable host. |
| ServerPackets.NewServerList | src/main/java/com/l2jserver/login/network/serverpackets/ServerList.java:113-123 | One record per registered server, in iteration order, with the client's last server and character maps. |
| ServerPackets.Records | src/main/java/com/l2jserver/login/network/serverpackets/ServerList.java:131-148 | The records take 21 bytes per server. |
| ServerPackets.DeleteSeconds | src/main/java/com/l2jserver/login/network/serverpackets/ServerList.java:166 | The written timer is a Java `int`. |
| ServerPackets.DeleteSecondsAhead | src/main/java/com/l2jserver/login/network/serverpackets/ServerList.java:166 | For a deletion time ahead of the clock, within the `int` range, the timer is the whole seconds left. |
| ServerPackets.DeleteSecondsPast | src/main/java/com/l2jserver/login/network/serverpackets/ServerList.java:166 | For a deletion time already past, within the `int` range, the timer is minus the whole seconds since. |
| ServerPackets.WriteServerList | src/main/java/com/l2jserver/login/network/serverpackets/ServerList.java:126-175 | The body is the server-list layout specification. |
| ServerPackets.RecordLayout | src/main/java/com/l2jserver/login/network/serverpackets/ServerList.java:131-147 | A record reads back as id, four address bytes, port, age, pvp, the two counts, an up flag that is 0 exactly when the server is down, type and brackets. |
| ServerPackets.RecordAt | src/main/java/com/l2jserver/login/network/serverpackets/ServerList.java:131-147 | Record i of the list sits at bytes 21i to 21i + 21 and is that server's record. |
| ServerPackets.ServerListLayout | src/main/java/com/l2jserver/login/network/serverpackets/ServerList.java:126-175 | The header is 0x04, count and last server; record i sits at byte 3 + 21i; the records are followed by a zero short and, without a character map, one zero byte. |
| GameServerPackets.StringReadable | src/main/java/com/l2jserver/util/network/packets/BaseRecievePacket.java:75-90 | Inside the frame `readS` always returns a string and keeps the cursor inside the frame. |
| GameServerPackets.Dispatch | src/main/java/com/l2jserver/login/network/L2JGameServerPacketHandler.java:54-129 | A packet is built only for an opcode and state it belongs to; only ChangePassword is not returned; 0x09 with mail off does nothing; every other pair closes with NOT_AUTHED. |
| GameServerPackets.StrictBeforeAuth | src/main/java/com/l2jserver/login/network/L2JGameServerPacketHandler.java:59-84 | CONNECTED accepts only 0x00 and BF_CONNECTED only 0x01; anything else closes the connection. |
| GameServerPackets.StripLeadingZeros | src/main/java/com/l2jserver/login/network/gameserverpackets/BlowFishKey.java:56-66 | The key is the block without its leading zeros: empty or starting with a non-zero byte, and its length is the block's minus the zeros. |
| GameServerPackets.BlowFishKeyReadBack | src/main/java/com/l2jserver/login/network/gameserverpackets/BlowFishKey.java:47-48 | A written length and block read back as that block. |
| GameServerPackets.BlowFishKey | src/main/java/com/l2jserver/login/network/gameserverpackets/BlowFishKey.java:44-79 | Unreadable exactly when the length or the block is missing; a failed RSA decryption changes nothing; otherwise the new key is the stripped block and the state is BF_CONNECTED. |
| GameServerPackets.PlayerLogoutReadBack | src/main/java/com/l2jserver/login/network/gameserverpackets/PlayerLogout.java:42 | A written account reads back. |
| GameServerPackets.PlayerLogout | src/main/java/com/l2jserver/login/network/gameserverpackets/PlayerLogout.java:39-51 | The account read leaves the online set; nothing else in the set changes. |
| GameServerPackets.PlayerAuthRequestReadBack | src/main/java/com/l2jserver/login/network/gameserverpackets/PlayerAuthRequest.java:44-49 | The account and the key, read as play pair then login pair, come back as written. |
| GameServerPackets.ReadPlayerAuthRequest | src/main/java/com/l2jserver/login/network/gameserverpackets/PlayerAuthRequest.java:44-49 | The reads on the cursor give the parse specification's result. |
| GameServerPackets.PlayerAuthRequest | src/main/java/com/l2jserver/login/network/gameserverpackets/PlayerAuthRequest.java:41-77 | Accepted exactly when the claiming client holds the presented key; an accepted claim is removed; exactly one response is sent, with the account and the answer. |
| GameServerPackets.Redeem | src/main/java/com/l2jserver/login/network/gameserverpackets/PlayerAuthRequest.java:56-65 | The key is accepted exactly when the account is claimed by a client holding that key; an accepted claim is removed. |
| GameServerPackets.RespondToAuth | src/main/java/com/l2jserver/login/network/gameserverpackets/PlayerAuthRequest.java:64-76 | One framed `PlayerAuthResponse` with the account and the answer is sent. |
| GameServerPackets.RequestTempBan | src/main/java/com/l2jserver/login/network/gameserverpackets/RequestTempBan.java:47-85 | Unreadable changes nothing; otherwise a resolvable address is banned with the ban time as absolute expiry, an existing entry kept; an unresolvable one is ignored. |
| GameServerPackets.ApplyLastWins | src/main/java/com/l2jserver/login/network/gameserverpackets/ServerStatus.java:79-101 | For a repeated attribute the last pair decides its value; brackets become `value == ON`. |
| GameServerPackets.ApplyUntouched | src/main/java/com/l2jserver/login/network/gameserverpackets/ServerStatus.java:83-100 | An attribute that no pair names keeps its value, so unknown types are ignored. |
| GameServerPackets.TakePairs | src/main/java/com/l2jserver/login/network/gameserverpackets/ServerStatus.java:78-82 | The pairs are complete exactly when the count is not positive or all of them fit in the frame. |
| GameServerPackets.TakePairsCount | src/main/java/com/l2jserver/login/network/gameserverpackets/ServerStatus.java:78-82 | All pairs are read exactly when they fit; a short read stops after the last whole pair. |
| GameServerPackets.TakePairsValues | src/main/java/com/l2jserver/login/network/gameserverpackets/ServerStatus.java:78-82 | Pair k is the two `int`s at offset 8k, and all read pairs lie inside the frame. |
| GameServerPackets.PairsReadBack | src/main/java/com/l2jserver/login/network/gameserverpackets/ServerStatus.java:78-82 | Written (type, value) pairs read back complete and unchanged. |
| GameServerPackets.ServerStatusReadBack | src/main/java/com/l2jserver/login/network/gameserverpackets/ServerStatus.java:78-82 | A written count and pairs read back as those pairs. |
| GameServerPackets.ServerStatus | src/main/java/com/l2jserver/login/network/gameserverpackets/ServerStatus.java:71-103 | Without an entry nothing changes; with one its attributes are the pairs applied in order, nothing else of it changes, and the read fails exactly when a pair is cut off. |
| GameServerPackets.ApplyPairs | src/main/java/com/l2jserver/login/network/gameserverpackets/ServerStatus.java:78-100 | The loop applies the read pairs in order and completes exactly when all pairs were read. |
| GameServerPackets.ParseGameServerAuth | src/main/java/com/l2jserver/login/network/gameserverpackets/GameServerAuth.java:68-80 | The fields come in order: id byte, two flag bytes, port short, capacity `int`, hex id, then an even number of host strings. |
| GameServerPackets.ReadGameServerAuth | src/main/java/com/l2jserver/login/network/gameserverpackets/GameServerAuth.java:68-80 | The reads on the cursor give the parse specification's result. |
| GameServerPackets.AuthHeadReadBack | src/main/java/com/l2jserver/login/network/gameserverpackets/GameServerAuth.java:68-72 | The written id, flags, port and capacity read back unchanged. |
| GameServerPackets.HexIdReadBack | src/main/java/com/l2jserver/login/network/gameserverpackets/GameServerAuth.java:73-74 | A written length and hex id read back as that hex id. |
| GameServerPackets.StringsReadBack | src/main/java/com/l2jserver/login/network/gameserverpackets/GameServerAuth.java:77-80 | Written zero-free host strings read back in order. |
| GameServerPackets.HostsReadBack | src/main/java/com/l2jserver/login/network/gameserverpackets/GameServerAuth.java:75-80 | A written pair count and an even list of hosts read back as that list. |
| GameServerPackets.GameServerAuthReadBack | src/main/java/com/l2jserver/login/network/gameserverpackets/GameServerAuth.java:68-80 | A request a game server wrote reads back as that request. |
| GameServerPackets.Resolve | src/main/java/com/l2jserver/login/network/gameserverpackets/GameServerAuth.java:100-177 | Same hex id: reattach, or ALREADY_LOGGED_IN when authed. Another hex id: a free id if new servers and alternative ids are allowed and one is free, else NO_FREE_ID; no entry: the desired id if new servers are accepted. Every other case is a refusal with one of the three reasons. |
| GameServerPackets.HandleRegProcess | src/main/java/com/l2jserver/login/network/gameserverpackets/GameServerAuth.java:100-177 | Fails exactly when the decision is a refusal, then force-closes with that reason; otherwise the entry, reused or new on the chosen id, is attached; no other entry changes. |
| GameServerPackets.RegisterOnFreeId | src/main/java/com/l2jserver/login/network/gameserverpackets/GameServerAuth.java:129-141 | Succeeds exactly when a named id is free; then a fresh, down entry on such an id is attached and bound; otherwise nothing changes. |
| GameServerPackets.RegisterOnDesiredId | src/main/java/com/l2jserver/login/network/gameserverpackets/GameServerAuth.java:154-161 | A fresh, down entry with the desired id is attached and bound to that id. |
| GameServerPackets.GameServerAuth | src/main/java/com/l2jserver/login/network/gameserverpackets/GameServerAuth.java:64-98 | Unreadable changes nothing; refused closes; accepted attaches the entry and moves the connection to AUTHED, which no other outcome does. |
| GameServerPackets.Authenticate | src/main/java/com/l2jserver/login/network/gameserverpackets/GameServerAuth.java:87-97 | Refused exactly when the decision is a refusal, which closes the connection; accepted attaches the entry and moves the connection to AUTHED. |
| GameServerPackets.HandlePacket | src/main/java/com/l2jserver/login/network/L2JGameServerPacketHandler.java:54-129 | The action is the dispatch on the old state and the opcode; a refused opcode closes with NOT_AUTHED; only BlowFishKey and GameServerAuth change the state. |
| GameServerPackets.RunPacket | src/main/java/com/l2jserver/login/network/L2JGameServerPacketHandler.java:59-124 | Running a packet changes the connection state only as BlowFishKey (to BF_CONNECTED) or GameServerAuth (to AUTHED) does. |
| ClientPackets.ClientDispatch | src/main/java/com/l2jserver/login/network/L2LoginPacketHandler.java:42-89 | Each client packet is built exactly in its state for its opcode: AuthGameGuard for 0x07 when CONNECTED, RequestAuthLogin for 0x00 when AUTHED_GG, RequestServerLogin for 0x02 and RequestServerList for 0x05 when AUTHED_LOGIN. |
| ClientPackets.DispatchByState | src/main/java/com/l2jserver/login/network/L2LoginPacketHandler.java:51-86 | No opcode is accepted in two states, and every state but AUTHED_LOGIN accepts a single opcode. |
| ClientPackets.ParseRequestAuthLogin | src/main/java/com/l2jserver/login/network/clientpackets/RequestAuthLogin.java:82-98 | At least 128 bytes after the opcode give the first RSA block, and at least 256 give a second; fewer than 128 fail. |
| ClientPackets.AuthLoginReadBack | src/main/java/com/l2jserver/login/network/clientpackets/RequestAuthLogin.java:82-98 | The blocks a client wrote read back. |
| ClientPackets.ReadRequestAuthLogin | src/main/java/com/l2jserver/login/network/clientpackets/RequestAuthLogin.java:82-98 | The reads on the cursor give the parse specification's result. |
| ClientPackets.NcotpBytes | src/main/java/com/l2jserver/login/network/clientpackets/RequestAuthLogin.java:134-137 | The one-time password's low byte is byte 0x7c; each higher byte is 0xFF once a lower byte has its top bit set, otherwise its own byte. |
| ClientPackets.DecodeCredentials | src/main/java/com/l2jserver/login/network/clientpackets/RequestAuthLogin.java:124-133 | Decodes exactly when the blocks are long enough, from 0x4E and 0x5C of the two blocks, or 0x5E and 0x6C of the one block. |
| ClientPackets.CredentialsNormal | src/main/java/com/l2jserver/login/network/clientpackets/RequestAuthLogin.java:124-133 | The user has no white space at either end and no upper-case letter; the password has no white space at either end. |
| ClientPackets.DecodeAuthLogin | src/main/java/com/l2jserver/login/network/clientpackets/RequestAuthLogin.java:106-138 | Silent exactly when an RSA decryption fails; otherwise the credentials decoded from the plain blocks, or malformed when they are too short. |
| ClientPackets.RequestAuthLogin | src/main/java/com/l2jserver/login/network/clientpackets/RequestAuthLogin.java:101-204 | A failed RSA step or a short block ends it with nothing changed; no account closes with USER_OR_PASS_WRONG; the failure bookkeeping follows the retrieval specification on the database's answers for the decoded user name; only success moves the client to AUTHED_LOGIN with a session key. |
| ClientPackets.CheckAccount | src/main/java/com/l2jserver/login/network/clientpackets/RequestAuthLogin.java:140-204 | The lookup of the account the user names, with the password's hash: the counters and bans follow the retrieval specification on that login's rows, and no account exactly when the retrieval finds none; then the check-in and its answer. |
| ClientPackets.CheckIn | src/main/java/com/l2jserver/login/network/clientpackets/RequestAuthLogin.java:156-204 | Only a successful check-in moves the client to AUTHED_LOGIN with the drawn session key; any other result keeps the state and the key. |
| ClientPackets.AnswerCheckin | src/main/java/com/l2jserver/login/network/clientpackets/RequestAuthLogin.java:156-203 | Success claims the account and welcomes the client. A bad password closes with USER_OR_PASS_WRONG and a ban with ACCOUNT_KICKED. On the login server, the old holder is closed and unclaimed and the client is closed with ACCOUNT_IN_USE. On a game server, the client is closed with ACCOUNT_IN_USE when some entry has the account online. |
| ClientPackets.Admit | src/main/java/com/l2jserver/login/network/clientpackets/RequestAuthLogin.java:159-172 | The client takes the account, AUTHED_LOGIN and a new session key; each game-server connection is asked for the account's characters once per authed entry it serves; then the client gets LoginOk or the server list. |
| ClientPackets.Claim | src/main/java/com/l2jserver/login/network/clientpackets/RequestAuthLogin.java:160-162 | The client takes the account, AUTHED_LOGIN and the drawn session key, and the claim maps the account to it. |
| ClientPackets.Welcome | src/main/java/com/l2jserver/login/network/clientpackets/RequestAuthLogin.java:163-171 | LoginOk with the client's key when the licence is shown, else the server list for the client. |
| ClientPackets.KickFromGameServer | src/main/java/com/l2jserver/login/network/clientpackets/RequestAuthLogin.java:190-202 | The holder is null exactly when no entry has the account online. Otherwise the holder has it, the client is closed with ACCOUNT_IN_USE, and an authed holder's connection is asked to kick the account. |
| ClientPackets.ParseRequestServerLogin | src/main/java/com/l2jserver/login/network/clientpackets/RequestServerLogin.java:66-77 | At least nine bytes after the opcode give two `int`s and the server id byte; fewer fail. |
| ClientPackets.ServerLoginReadBack | src/main/java/com/l2jserver/login/network/clientpackets/RequestServerLogin.java:66-77 | A request a client wrote reads back. |
| ClientPackets.ReadRequestServerLogin | src/main/java/com/l2jserver/login/network/clientpackets/RequestServerLogin.java:66-77 | The reads on the cursor give the parse specification's result. |
| ClientPackets.RequestServerLogin | src/main/java/com/l2jserver/login/network/clientpackets/RequestServerLogin.java:80-101 | With the licence shown a mismatched login pair closes with ACCESS_FAILED; otherwise a possible login sets joinedGS and sends PlayOk, else the client is closed with SERVER_OVERLOADED. |
| ClientPackets.HandlePacket | src/main/java/com/l2jserver/login/network/L2LoginPacketHandler.java:42-89 | The packet is the dispatch on the old state and the opcode; no packet, or an unreadable one, changes nothing; only RequestAuthLogin moves the state, and only RequestServerLogin sets joinedGS. |

## Left out

- Database access is not modelled. The database is a function from a login to its `accounts` row, the result of an insert and the row after it, and its `accounts_ipauth` rows. The rows of the `gameservers` table are a parameter of `GameServerTable`'s constructor, with each stored hex text already converted to bytes (`stringToHex` is not modelled). SQL exceptions are not modelled. `setAccountAccessLevel`, `setAccountLastTracert`, the `lastServer` update in `isLoginPossible` and the `RequestTempBan` insert are not modelled, since each only writes the database.
- RSA key generation, the scrambled key pair and `GameServerTable.initRSAKeys` are left out, because they are library cryptography. RSA decryption is an uninterpreted function.
- SHA-1 and Base64 are left out; the password hash is an uninterpreted function.
- The Blowfish engine is left out; it is an abstract block transform.
- Sockets, selector threads and the packet read loops are left out. This covers the `GameServerThread.run` loop apart from its `finally` teardown, the `FloodProtectedListener` accept loop apart from its per-connection bookkeeping, `GameServerListener` and the mmocore buffers.
- `PurgeThread`, `LoginServerRestart`, shutdown, the telnet console and its broadcasts, and all logging are left out. They are timers, threads and output.
- The whole file reading of `loadBanFile` is left out. The model takes the file's lines.
- Host-name resolution and subnet matching are parameters. Addresses are IPv4 only, so IPv6 is not modelled.
- `writeF` and `readF` are left out, because they are floating point.
- Configuration, XML loading, `MailSystem`, the SMTP transport and UPnP are left out. They are I/O.
- Java `toLowerCase` is modelled for ASCII letters only; other letters are kept. Malformed UTF-16 surrogates are not modelled.
- JavaText.DigitValue: the decimal digits are the ranges of Unicode 6.2, the tables of Java 8. Later Java versions accept further scripts.
- `ChangePassword`, `ChangeAccessLevel`, `PlayerTracert` and `RequestSendMail` are not run: they only reach the database or the mail transport. They are dispatched like every other packet. `ChangePassword` is created but not returned, as in the handler. The static connection field that `ChangePassword` keeps is not modelled.
- `AuthResponse`, `KickPlayer`, `PlayOk`, `LoginFail`, `SessionKey`, `AuthGameGuard`, `RequestServerList`, `PlayerInGame` and `ReplyCharacters` are not part of this model.
  - Their layouts are not modelled. On acceptance, `GameServerAuth` returns the id that `AuthResponse` would carry rather than sending it.
  - A `KickPlayer` request is recorded as the account name.
  - `RequestCharacters` is not part of this model either. Its request is recorded as the account name.
  - Login.LoginController.GetCharactersOnAccount: requires that every authed entry has a connection. `attachGameServerInfo` and `setDown` keep that, and the Java code would fail with a null pointer otherwise.
  - `PlayOk` and `LoginFail` are recorded as values sent to the client, not as bytes.
  - A session key is four integers, and its login pair check compares the first two.
  - `AuthGameGuard` and `RequestServerList` are dispatched by the client handler but not run.
- `GameServerTable.stringToHex`, `hexToString`, `getServerNameById` and the other `Util` helpers are left out, because they are library conversions.
- The `REASON_ID_RESERVED` refusal in `handleRegProcess` is not reachable. With atomic methods, nobody can take the desired id between the lookup and `register`.
- `Registry.GameServerTable.RegisterWithFirstAvailableId`: the Java method scans a `HashMap` key set, whose order is unspecified. The model scans the configured server ids in a fixed order, and its contract says only that the chosen id is the first free one in that order.
- `LoginCrypto.LoginCrypt.Encrypt`: the 32-bit overflow of the padded size, for sizes near 2^31, is not modelled. The size is an unbounded integer.
- `ClientPackets.RequestServerLogin` requires the client to hold a session key. The Java code would throw a `NullPointerException` otherwise. The handler only reaches it in AUTHED_LOGIN, which is entered together with a key.
- `ClientPackets.NcotpBytes`: the one-time password is kept as a 32-bit pattern. Its contract states the four bytes rather than the signed `int` value.
- `Crypt.EncXorPass` and `Crypt.VerifyChecksum` state their results for any offset, with the loop bounds as written. The clean checksum properties (`Crypt.ChecksumAtZero`, `Crypt.ChecksumDetectsAlteredWord`, `Crypt.AppendTouchesLastWord`) are proved for offset 0 only, because the bounds do not include the offset.
