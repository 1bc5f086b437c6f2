/** Greeting, response and password check: `src/protocol/handshake.rs` against `src/client.rs`. */
module Handshake {
  import opened Prelude
  import opened Bincode

  // ---- Capability bits ------------------------------------------------------------------------

  predicate Bit(n: nat, k: nat) {
    if k == 0 then n % 2 == 1 else Bit(n / 2, k - 1)
  }

  function And(a: nat, b: nat): (r: nat)
    ensures r <= a
  {
    if a == 0 || b == 0 then 0 else 2 * And(a / 2, b / 2) + (a % 2) * (b % 2)
  }

  lemma {:induction false} ZeroHasNoBit(k: nat)
    ensures !Bit(0, k)
  {
    if k > 0 {
      ZeroHasNoBit(k - 1);
    }
  }

  lemma BitsMultiply(a: nat, b: nat)
    ensures (a % 2) * (b % 2) == if a % 2 == 1 && b % 2 == 1 then 1 else 0
  {
    if a % 2 == 0 {
      assert (a % 2) * (b % 2) == 0;
    }
  }

  lemma DoubledAndLow(high: nat, low: nat)
    requires low < 2
    ensures (2 * high + low) / 2 == high && (2 * high + low) % 2 == low
  {
  }

  /** A masked word has exactly the bits that both words have. */
  lemma {:induction false} AndBits(a: nat, b: nat, k: nat)
    ensures Bit(And(a, b), k) <==> Bit(a, k) && Bit(b, k)
  {
    if a == 0 || b == 0 {
      ZeroHasNoBit(k);
    } else {
      BitsMultiply(a, b);
      DoubledAndLow(And(a / 2, b / 2), (a % 2) * (b % 2));
      if k > 0 {
        AndBits(a / 2, b / 2, k - 1);
      }
    }
  }

  const CONNECT_WITH_DB: nat := 3
  const SECURE_CONNECTION: nat := 15
  const PLUGIN_AUTH: nat := 19
  const LENENC_DATA: nat := 21

  /**
    * What the server announces: LONG_PASSWORD, CONNECT_WITH_DB, PROTOCOL_41, TRANSACTIONS, SECURE_CONNECTION,
    * MULTI_RESULTS, PS_MULTI_RESULTS, PLUGIN_AUTH.
    */
  const SERVER_CAPABILITIES: u32 := 1 + 8 + 512 + 8192 + 32768 + 131072 + 262144 + 524288

  /**
    * What the client asks for: CONNECT_WITH_DB, PROTOCOL_41, TRANSACTIONS, SECURE_CONNECTION, PLUGIN_AUTH,
    * PLUGIN_AUTH_LENENC_CLIENT_DATA.
    */
  const CLIENT_CAPABILITIES: u32 := 8 + 512 + 8192 + 32768 + 524288 + 2097152

  // ---- SHA-1 and XOR ------------------------------------------------------------------------------

  const ZEROS: Bytes := [0, 0, 0, 0, 0, 0, 0, 0, 0, 0, 0, 0, 0, 0, 0, 0, 0, 0, 0, 0]

  type Digest = b: Bytes | |b| == 20 witness ZEROS

  /** SHA-1: any function to 20 bytes. */
  type Sha1 = Bytes -> Digest

  function Pow2(w: nat): nat {
    if w == 0 then 1 else 2 * Pow2(w - 1)
  }

  function XorBits(a: nat, b: nat, w: nat): (r: nat)
    ensures r < Pow2(w)
  {
    if w == 0 then 0 else 2 * XorBits(a / 2, b / 2, w - 1) + (a + b) % 2
  }

  lemma Halves(h: nat, p: nat, b: nat)
    requires p < 2
    ensures (2 * h + p) / 2 == h && (2 * h + p + b) % 2 == (p + b) % 2
  {
  }

  lemma ParityCancels(a: nat, b: nat)
    ensures ((a + b) % 2 + b) % 2 == a % 2 && 2 * (a / 2) + a % 2 == a
  {
  }

  lemma XorStep(x: nat, b: nat, w: nat)
    requires w > 0
    ensures XorBits(x, b, w) == 2 * XorBits(x / 2, b / 2, w - 1) + (x + b) % 2
  {
  }

  lemma {:induction false} XorCancels(a: nat, b: nat, w: nat)
    requires a < Pow2(w)
    ensures XorBits(XorBits(a, b, w), b, w) == a
  {
    if w > 0 {
      var h, p := XorBits(a / 2, b / 2, w - 1), (a + b) % 2;
      var x := XorBits(a, b, w);
      XorCancels(a / 2, b / 2, w - 1);
      XorStep(a, b, w);
      XorStep(x, b, w);
      Halves(h, p, b);
      ParityCancels(a, b);
    }
  }

  function XorByte(a: byte, b: byte): byte {
    assert Pow2(8) == 256;
    XorBits(a, b, 8)
  }

  /** `zip` and `^`: as long as the shorter one. */
  function Xor(a: Bytes, b: Bytes): (r: Bytes)
    ensures |r| == if |a| < |b| then |a| else |b|
  {
    seq(if |a| < |b| then |a| else |b|, i requires 0 <= i < |a| && i < |b| => XorByte(a[i], b[i]))
  }

  lemma XorTwice(a: Bytes, b: Bytes)
    requires |a| == |b|
    ensures Xor(Xor(a, b), b) == a
  {
    forall i | 0 <= i < |a| ensures Xor(Xor(a, b), b)[i] == a[i] {
      assert Pow2(8) == 256;
      XorCancels(a[i], b[i], 8);
    }
  }

  // ---- The password -----------------------------------------------------------------------------------

  /** `hash_native_password`: what the server stores. */
  function Stored(sha1: Sha1, password: Bytes): Digest {
    sha1(sha1(password))
  }

  /** `compute_auth_response`. */
  function AuthResponse(sha1: Sha1, password: Bytes, scramble: Bytes): Bytes {
    Xor(sha1(password), sha1(scramble + Stored(sha1, password)))
  }

  /** `verify_native_password_hash`. */
  predicate Accepts(sha1: Sha1, stored: Digest, scramble: Bytes, response: Bytes) {
    sha1(Xor(response, sha1(scramble + stored))) == stored
  }

  /** `verify_native_password`. */
  predicate AcceptsPassword(sha1: Sha1, password: Bytes, scramble: Bytes, response: Bytes) {
    response == Xor(sha1(password), sha1(scramble + sha1(sha1(password))))
  }

  /**
    * The check with the stored hash accepts a 20-byte response exactly when unmasking it gives a preimage of that hash.
    */
  lemma AcceptsPreimages(sha1: Sha1, stored: Digest, scramble: Bytes, response: Digest)
    ensures Accepts(sha1, stored, scramble, response)
       <==> exists x: Digest :: sha1(x) == stored && response == Xor(x, sha1(scramble + stored))
  {
    var mask := sha1(scramble + stored);
    if Accepts(sha1, stored, scramble, response) {
      var x: Digest := Xor(response, mask);
      XorTwice(response, mask);
      assert sha1(x) == stored && response == Xor(x, mask);
    }
    if x: Digest :| sha1(x) == stored && response == Xor(x, mask) {
      XorTwice(x, mask);
    }
  }

  /** Whoever passes the check with the password passes the check with its stored hash. */
  lemma PasswordChecksAgree(sha1: Sha1, password: Bytes, scramble: Bytes, response: Bytes)
    requires AcceptsPassword(sha1, password, scramble, response)
    ensures response == AuthResponse(sha1, password, scramble)
    ensures Accepts(sha1, Stored(sha1, password), scramble, response)
  {
    XorTwice(sha1(password), sha1(scramble + Stored(sha1, password)));
  }

  /**
    * The client's answer to an empty password is empty, and a server that has the empty password set refuses it unless
    * SHA-1 is constant on it.
    */
  lemma EmptyPasswordRefused(sha1: Sha1, scramble: Bytes)
    ensures Accepts(sha1, Stored(sha1, []), scramble, []) <==> sha1([]) == sha1(sha1([]))
  {
    assert Xor([], sha1(scramble + Stored(sha1, []))) == [];
  }

  // ---- The greeting ----------------------------------------------------------------------------------

  /** "srrdb 0.2.0" */
  const VERSION: Str := [115, 114, 114, 100, 98, 32, 48, 46, 50, 46, 48]

  /** "mysql_native_password" */
  const PLUGIN: Str := [109, 121, 115, 113, 108, 95, 110, 97, 116, 105, 118, 101, 95, 112, 97, 115, 115, 119, 111, 114, 100]

  type Scramble = b: Bytes | |b| == 20 witness ZEROS

  /** The 20 bytes behind the version text. */
  function Fixed(connId: u32, scramble: Scramble, capabilities: u32, charset: byte): (b: Bytes)
    ensures |b| == 20
  {
    Little(connId, 4) + (scramble[..8] + ([0] + (Little(capabilities % 0x1_0000, 2) + ([charset] + (Little(2, 2) + Little(capabilities / 0x1_0000, 2))))))
  }

  /** The data length, ten reserved bytes, the rest of the scramble and the plugin's name. */
  function Variable(scramble: Scramble, capabilities: u32): Bytes {
    [if Bit(capabilities, PLUGIN_AUTH) then 21 else 0] + (ZEROS[..10] + (
                                                            (if Bit(capabilities, SECURE_CONNECTION) then scramble[8..] + [0] else []) +
                                                            (if Bit(capabilities, PLUGIN_AUTH) then PLUGIN + [0] else [])))
  }

  function Greeting(connId: u32, scramble: Scramble, capabilities: u32, charset: byte): Bytes {
    [10] + ((VERSION + [0]) + (Fixed(connId, scramble, capabilities, charset) + Variable(scramble, capabilities)))
  }

  datatype ServerGreeting = ServerGreeting(version: byte, serverVersion: Str, connId: nat, scramble: Scramble, capabilities: u32, charset: byte)

  /** The index of the first NUL; the length if there is none. */
  function Nul(b: Bytes): (n: nat)
    ensures n <= |b|
    ensures n < |b| ==> b[n] == 0
    ensures forall i :: 0 <= i < n ==> b[i] != 0
  {
    if b == [] || b[0] == 0 then 0 else 1 + Nul(b[1..])
  }

  lemma TextEnds(text: Bytes, rest: Bytes)
    requires 0 !in text
    ensures Nul((text + [0]) + rest) == |text|
    ensures ((text + [0]) + rest)[..|text|] == text && ((text + [0]) + rest)[|text| + 1..] == rest
  {
    var b := (text + [0]) + rest;
    assert b[|text|] == 0;
    assert forall i :: 0 <= i < |text| ==> b[i] == text[i] && text[i] in text;
  }

  function CapabilitiesOf(t: Bytes): u32
    requires |t| >= 20
  {
    Widths();
    FromLittleBound(t[18..20]);
    FromLittleBound(t[13..15]);
    FromLittle(t[18..20]) * 0x1_0000 + FromLittle(t[13..15])
  }

  /** The second part of the scramble, as far as the greeting brings it. */
  function ScrambleEnd(t: Bytes, capabilities: u32, length: nat): (end: Bytes)
    requires |t| >= 20
    ensures |end| == 12
  {
    var part := if length > 9 then length - 9 else 0;
    var copied := if part < 12 then part else 12;
    if Bit(capabilities, SECURE_CONNECTION) && part > 0 && 31 + part <= |t|
    then t[31..31 + copied] + ZEROS[..12 - copied]
    else ZEROS[..12]
  }

  /** `parse_server_handshake` behind the version text. */
  function ParseFields(version: byte, serverVersion: Str, t: Bytes): Option<ServerGreeting> {
    if |t| < 20 then None
    else
      var capabilities := CapabilitiesOf(t);
      if Bit(capabilities, PLUGIN_AUTH) && |t| < 21 then None
      else
        var length := if Bit(capabilities, PLUGIN_AUTH) then t[20] else 0;
        Some(ServerGreeting(version, serverVersion, FromLittle(t[..4]), t[4..12] + ScrambleEnd(t, capabilities, length), capabilities, t[15]))
  }

  /** `parse_server_handshake`; `None` is an error or an index out of range. */
  function ParseGreeting(b: Bytes): Option<ServerGreeting> {
    if b == [] then None
    else
      var end := Nul(b[1..]);
      if end == |b| - 1 || !Utf8(b[1..][..end]) then None else ParseFields(b[0], b[1..][..end], b[1..][end + 1..])
  }

  lemma {:induction false} AsciiIsUtf8(s: Bytes)
    requires forall i :: 0 <= i < |s| ==> s[i] < 0x80
    ensures Utf8(s)
  {
    if s != [] {
      AsciiIsUtf8(s[1..]);
    }
  }

  lemma FixedReads(connId: u32, scramble: Scramble, capabilities: u32, charset: byte, rest: Bytes)
    ensures var t := Fixed(connId, scramble, capabilities, charset) + rest;
            && FromLittle(t[..4]) == connId && t[4..12] == scramble[..8] && t[15] == charset
            && CapabilitiesOf(t) == capabilities
            && t[20..] == rest
  {
    Widths();
    var t := Fixed(connId, scramble, capabilities, charset) + rest;
    LittleRoundTrip(connId, 4);
    LittleRoundTrip(capabilities % 0x1_0000, 2);
    LittleRoundTrip(capabilities / 0x1_0000, 2);
    assert t[..4] == Little(connId, 4) && t[4..12] == scramble[..8];
    assert t[13..15] == Little(capabilities % 0x1_0000, 2) && t[18..20] == Little(capabilities / 0x1_0000, 2);
  }

  /** What the client's scramble is after it has read a greeting. */
  function Received(scramble: Scramble, capabilities: u32): Scramble {
    if Bit(capabilities, SECURE_CONNECTION) && Bit(capabilities, PLUGIN_AUTH) then scramble else scramble[..8] + ZEROS[..12]
  }

  lemma VariableReads(t: Bytes, scramble: Scramble, capabilities: u32)
    requires |t| >= 20 && t[20..] == Variable(scramble, capabilities)
    ensures |t| >= 21 && t[20] == if Bit(capabilities, PLUGIN_AUTH) then 21 else 0
    ensures scramble[..8] + ScrambleEnd(t, capabilities, t[20]) == Received(scramble, capabilities)
  {
    var v := Variable(scramble, capabilities);
    assert t[20] == v[0];
    if Bit(capabilities, SECURE_CONNECTION) && Bit(capabilities, PLUGIN_AUTH) {
      assert v[11..23] == scramble[8..];
      assert t[31..43] == t[20..][11..23];
      assert scramble[..8] + scramble[8..] == scramble;
      assert ScrambleEnd(t, capabilities, 21) == scramble[8..] + ZEROS[..0];
    }
  }

  /**
    * The client reads the capabilities the server announced, and the whole scramble when they include both flags it
    * needs.
    */
  lemma GreetingReads(connId: u32, scramble: Scramble, capabilities: u32, charset: byte)
    ensures ParseGreeting(Greeting(connId, scramble, capabilities, charset))
         == Some(ServerGreeting(10, VERSION, connId, Received(scramble, capabilities), capabilities, charset))
  {
    var v := Variable(scramble, capabilities);
    var t := Fixed(connId, scramble, capabilities, charset) + v;
    var b := Greeting(connId, scramble, capabilities, charset);
    assert b[1..] == (VERSION + [0]) + t;
    TextEnds(VERSION, t);
    AsciiIsUtf8(VERSION);
    FixedReads(connId, scramble, capabilities, charset, v);
    VariableReads(t, scramble, capabilities);
  }

  // ---- The response -----------------------------------------------------------------------------------

  /** The response up to the user name. */
  function ResponseHead(capabilities: u32): (b: Bytes)
    ensures |b| == 32
  {
    Little(capabilities, 4) + (Little(16777215, 4) + ([255] + (ZEROS + [0, 0, 0])))
  }

  function ResponseBytes(capabilities: u32, username: Str, auth: Bytes, db: Str, plugin: Str): Bytes {
    ResponseHead(capabilities) + ((username + [0]) + (([|auth| % 256] + auth) + ((db + [0]) + (plugin + [0]))))
  }

  function AuthOf(greeting: ServerGreeting, password: Str, sha1: Sha1): (auth: Bytes)
    ensures |auth| == if password == [] then 0 else 20
  {
    if password == [] then [] else AuthResponse(sha1, password, greeting.scramble)
  }

  /** `build_handshake_response`. */
  function BuildResponse(greeting: ServerGreeting, username: Str, password: Str, sha1: Sha1): Bytes {
    ResponseBytes(And(CLIENT_CAPABILITIES, greeting.capabilities), username, AuthOf(greeting, password, sha1), SRRDB, PLUGIN)
  }

  datatype Response = Response(capabilities: nat, maxPacket: nat, charset: byte, username: Str, auth: Bytes, database: Option<Str>, plugin: Option<Str>)

  /** NUL-terminated text. */
  function ParseText(b: Bytes): Parsed<Str> {
    var end := Nul(b);
    if end == |b| || !Utf8(b[..end]) then None else Some((b[..end], b[end + 1..]))
  }

  /** The server's `lenenc_int`: the value and how many bytes it took. */
  function LenencInt(b: Bytes): Option<(nat, nat)> {
    if b == [] then Some((0, 0))
    else if b[0] == 0xFC then (if |b| < 3 then None else Some((FromLittle(b[1..3]), 3)))
    else if b[0] == 0xFD then (if |b| < 4 then None else Some((FromLittle(b[1..4]), 4)))
    else if b[0] == 0xFE then (if |b| < 9 then None else Some((FromLittle(b[1..9]), 9)))
    else Some((b[0], 1))
  }

  /** The password answer: behind a length-encoded integer, behind a length byte, or up to a NUL. */
  function ParseAuth(b: Bytes, capabilities: nat): Parsed<Bytes> {
    if Bit(capabilities, LENENC_DATA) then
      var (len, n) :- LenencInt(b);
      if n + len <= |b| then Some((b[n..n + len], b[n + len..])) else None
    else if Bit(capabilities, SECURE_CONNECTION) then
      if b == [] || 1 + b[0] > |b| then None else Some((b[1..1 + b[0]], b[1 + b[0]..]))
    else
      var end := Nul(b);
      if end == |b| then None else Some((b[..end], b[end + 1..]))
  }

  function ParseWhen(present: bool, b: Bytes): Parsed<Option<Str>> {
    if !present then Some((None, b))
    else
      var (text, rest) :- ParseText(b);
      Some((Some(text), rest))
  }

  /** `parse_handshake_response`; `None` is an error or an index out of range. */
  function ParseResponse(b: Bytes): Option<Response> {
    if |b| < 32 then None
    else
      var capabilities := FromLittle(b[..4]);
      var (username, b1) :- ParseText(b[32..]);
      var (auth, b2) :- ParseAuth(b1, capabilities);
      var (database, b3) :- ParseWhen(Bit(capabilities, CONNECT_WITH_DB), b2);
      var (plugin, _) :- ParseWhen(Bit(capabilities, PLUGIN_AUTH), b3);
      Some(Response(capabilities, FromLittle(b[4..8]), b[8], username, auth, database, plugin))
  }

  lemma TextReads(text: Str, rest: Bytes)
    requires 0 !in text && Utf8(text)
    ensures ParseText((text + [0]) + rest) == Some((text, rest))
  {
    TextEnds(text, rest);
  }

  lemma AuthReads(auth: Bytes, rest: Bytes, capabilities: nat)
    requires |auth| < 251
    requires Bit(capabilities, LENENC_DATA) || Bit(capabilities, SECURE_CONNECTION)
    ensures ParseAuth(([|auth| % 256] + auth) + rest, capabilities) == Some((auth, rest))
  {
    var b := ([|auth| % 256] + auth) + rest;
    assert b[0] == |auth| && b[1..1 + |auth|] == auth && b[1 + |auth|..] == rest;
  }

  lemma HeadReads(capabilities: u32, rest: Bytes)
    ensures var b := ResponseHead(capabilities) + rest;
            FromLittle(b[..4]) == capabilities && FromLittle(b[4..8]) == 16777215 && b[8] == 255 && b[32..] == rest
  {
    Widths();
    LittleRoundTrip(capabilities, 4);
    LittleRoundTrip(16777215, 4);
    var b := ResponseHead(capabilities) + rest;
    assert b[..4] == Little(capabilities, 4) && b[4..8] == Little(16777215, 4);
  }

  lemma EndReads(hasDb: bool, hasPlugin: bool, db: Str, plugin: Str)
    requires 0 !in db && Utf8(db) && 0 !in plugin && Utf8(plugin)
    ensures ParseWhen(hasDb, (db + [0]) + (plugin + [0])).Some?
    ensures var (database, rest) := ParseWhen(hasDb, (db + [0]) + (plugin + [0])).value;
            && database == (if hasDb then Some(db) else None)
            && ParseWhen(hasPlugin, rest).Some?
            && ParseWhen(hasPlugin, rest).value.0 == if !hasPlugin then None else if hasDb then Some(plugin) else Some(db)
  {
    TextReads(db, plugin + [0]);
    var none: Bytes := [];
    TextReads(plugin, none);
    assert (plugin + [0]) + none == plugin + [0];
  }

  lemma ResponseSteps(b: Bytes, capabilities: nat, username: Str, b1: Bytes, auth: Bytes, b2: Bytes,
      database: Option<Str>, b3: Bytes, plugin: Option<Str>, b4: Bytes)
    requires |b| >= 32 && FromLittle(b[..4]) == capabilities && FromLittle(b[4..8]) == 16777215 && b[8] == 255
    requires ParseText(b[32..]) == Some((username, b1)) && ParseAuth(b1, capabilities) == Some((auth, b2))
    requires ParseWhen(Bit(capabilities, CONNECT_WITH_DB), b2) == Some((database, b3))
    requires ParseWhen(Bit(capabilities, PLUGIN_AUTH), b3) == Some((plugin, b4))
    ensures ParseResponse(b) == Some(Response(capabilities, 16777215, 255, username, auth, database, plugin))
  {
  }

  predicate Texts(a: Str, b: Str) {
    0 !in a && Utf8(a) && 0 !in b && Utf8(b)
  }

  lemma AsciiTexts(a: Str, b: Str)
    requires forall i :: 0 <= i < |a| ==> 0 < a[i] < 0x80
    requires forall i :: 0 <= i < |b| ==> 0 < b[i] < 0x80
    ensures Texts(a, b)
  {
    AsciiIsUtf8(a);
    AsciiIsUtf8(b);
  }

  lemma ResponseParses(capabilities: u32, username: Str, auth: Bytes, db: Str, name: Str)
    requires 0 !in username && Utf8(username) && |auth| < 251
    requires Texts(db, name)
    requires Bit(capabilities, LENENC_DATA) || Bit(capabilities, SECURE_CONNECTION)
    ensures var b := ResponseBytes(capabilities, username, auth, db, name);
            var database := if Bit(capabilities, CONNECT_WITH_DB) then Some(db) else None;
            var plugin := if !Bit(capabilities, PLUGIN_AUTH) then None else if Bit(capabilities, CONNECT_WITH_DB) then Some(name) else Some(db);
            ParseResponse(b) == Some(Response(capabilities, 16777215, 255, username, auth, database, plugin))
  {
    var end := (db + [0]) + (name + [0]);
    var b1 := ([|auth| % 256] + auth) + end;
    var hasDb, hasPlugin := Bit(capabilities, CONNECT_WITH_DB), Bit(capabilities, PLUGIN_AUTH);
    HeadReads(capabilities, (username + [0]) + b1);
    TextReads(username, b1);
    AuthReads(auth, end, capabilities);
    EndReads(hasDb, hasPlugin, db, name);
    var (database, b3) := ParseWhen(hasDb, end).value;
    var (plugin, b4) := ParseWhen(hasPlugin, b3).value;
    ResponseSteps(ResponseHead(capabilities) + ((username + [0]) + b1), capabilities, username, b1, auth, end, database, b3, plugin, b4);
  }

  /**
    * The server reads what the client wrote: the capabilities both have, the user name, the password answer, and the
    * database. Without CONNECT_WITH_DB it would take the database for the plugin.
    */
  lemma ResponseReads(greeting: ServerGreeting, username: Str, password: Str, sha1: Sha1)
    requires 0 !in username && Utf8(username)
    requires Bit(greeting.capabilities, LENENC_DATA) || Bit(greeting.capabilities, SECURE_CONNECTION)
    ensures ParseResponse(BuildResponse(greeting, username, password, sha1)).Some?
    ensures var r := ParseResponse(BuildResponse(greeting, username, password, sha1)).value;
            && r.capabilities == And(CLIENT_CAPABILITIES, greeting.capabilities)
            && r.maxPacket == 16777215 && r.charset == 255 && r.username == username
            && r.auth == AuthOf(greeting, password, sha1)
            && r.database == (if Bit(greeting.capabilities, CONNECT_WITH_DB) then Some(SRRDB) else None)
            && r.plugin == if !Bit(greeting.capabilities, PLUGIN_AUTH) then None
                           else if Bit(greeting.capabilities, CONNECT_WITH_DB) then Some(PLUGIN) else Some(SRRDB)
  {
    ClientBits(greeting.capabilities);
    AsciiTexts(SRRDB, PLUGIN);
    ResponseParses(And(CLIENT_CAPABILITIES, greeting.capabilities), username, AuthOf(greeting, password, sha1), SRRDB, PLUGIN);
  }

  /** The client asks for these four flags, so the masked word has them exactly when the server announced them. */
  lemma ClientBits(capabilities: u32)
    ensures forall k | k in [CONNECT_WITH_DB, SECURE_CONNECTION, PLUGIN_AUTH, LENENC_DATA] ::
              Bit(And(CLIENT_CAPABILITIES, capabilities), k) <==> Bit(capabilities, k)
  {
    forall k | k in [CONNECT_WITH_DB, SECURE_CONNECTION, PLUGIN_AUTH, LENENC_DATA]
      ensures Bit(And(CLIENT_CAPABILITIES, capabilities), k) <==> Bit(capabilities, k)
    {
      AndBits(CLIENT_CAPABILITIES, capabilities, k);
      ClientHas(k);
    }
  }

  lemma FourBitsOn(n: nat, k: nat)
    requires k >= 4
    ensures Bit(n, k) <==> Bit(n / 16, k - 4)
  {
    assert Bit(n / 2 / 2, k - 2) <==> Bit(n / 2 / 2 / 2 / 2, k - 4);
  }

  lemma SomeBits(n: nat)
    ensures Bit(n, 15) <==> Bit(n / 16 / 16 / 16, 3)
    ensures Bit(n, 19) <==> Bit(n / 16 / 16 / 16 / 16, 3)
    ensures Bit(n, 21) <==> Bit(n / 16 / 16 / 16 / 16 / 16, 1)
  {
    var n1, n2, n3, n4 := n / 16, n / 16 / 16, n / 16 / 16 / 16, n / 16 / 16 / 16 / 16;
    FourBitsOn(n, 15);
    FourBitsOn(n1, 11);
    FourBitsOn(n2, 7);
    FourBitsOn(n, 19);
    FourBitsOn(n1, 15);
    FourBitsOn(n2, 11);
    FourBitsOn(n3, 7);
    FourBitsOn(n, 21);
    FourBitsOn(n1, 17);
    FourBitsOn(n2, 13);
    FourBitsOn(n3, 9);
    FourBitsOn(n4, 5);
  }

  lemma LowBits(n: nat)
    ensures Bit(n, 1) <==> n / 2 % 2 == 1
    ensures Bit(n, 3) <==> n / 8 % 2 == 1
  {
    assert Bit(n / 2, 2) <==> Bit(n / 2 / 2 / 2, 0);
  }

  lemma ClientHas(k: nat)
    requires k in [CONNECT_WITH_DB, SECURE_CONNECTION, PLUGIN_AUTH, LENENC_DATA]
    ensures Bit(CLIENT_CAPABILITIES, k)
  {
    SomeBits(CLIENT_CAPABILITIES);
    LowBits(CLIENT_CAPABILITIES);
    LowBits(650);
    LowBits(40);
    LowBits(2);
  }

  /**
    * The flags the server announces; no length-encoded password answer, so the client's one length byte is what the
    * server reads.
    */
  lemma ServerBits()
    ensures Bit(SERVER_CAPABILITIES, CONNECT_WITH_DB) && Bit(SERVER_CAPABILITIES, SECURE_CONNECTION) && Bit(SERVER_CAPABILITIES, PLUGIN_AUTH)
    ensures !Bit(SERVER_CAPABILITIES, LENENC_DATA)
  {
    SomeBits(SERVER_CAPABILITIES);
    LowBits(SERVER_CAPABILITIES);
    LowBits(234);
    LowBits(14);
    LowBits(0);
  }

  /**
    * From greeting to acceptance: the client gets scramble and capabilities, the server gets the name, and the right
    * password opens.
    */
  lemma HandshakeSucceeds(connId: u32, scramble: Scramble, charset: byte, username: Str, password: Str, sha1: Sha1)
    requires 0 !in username && Utf8(username) && password != []
    ensures var greeting := ParseGreeting(Greeting(connId, scramble, SERVER_CAPABILITIES, charset));
            && greeting == Some(ServerGreeting(10, VERSION, connId, scramble, SERVER_CAPABILITIES, charset))
            && var response := ParseResponse(BuildResponse(greeting.value, username, password, sha1));
            && response.Some?
            && response.value.capabilities == And(CLIENT_CAPABILITIES, SERVER_CAPABILITIES)
            && response.value.username == username && response.value.database == Some(SRRDB) && response.value.plugin == Some(PLUGIN)
            && Accepts(sha1, Stored(sha1, password), scramble, response.value.auth)
  {
    ServerBits();
    GreetingReads(connId, scramble, SERVER_CAPABILITIES, charset);
    ResponseReads(ServerGreeting(10, VERSION, connId, scramble, SERVER_CAPABILITIES, charset), username, password, sha1);
    PasswordChecksAgree(sha1, password, scramble, AuthResponse(sha1, password, scramble));
  }

  // ---- The parsers, moving `pos` along the payload --------------------------------------------------------

  lemma Further(payload: Bytes, pos: nat, n: nat)
    requires pos + n <= |payload|
    ensures payload[pos..][n..] == payload[pos + n..]
    ensures forall m: nat :: n <= m && pos + m <= |payload| ==> payload[pos..][n..m] == payload[pos + n..pos + m]
  {
  }

  method ParseHandshakeResponse(payload: Bytes) returns (r: Option<Response>)
    ensures r == ParseResponse(payload)
  {
    if |payload| < 32 {
      return None;
    }
    var pos: nat := 0;
    var capabilities := FromLittle(payload[pos..pos + 4]);
    assert payload[..4] == payload[0..4];
    pos := pos + 4;
    var maxPacket := FromLittle(payload[pos..pos + 4]);
    pos := pos + 4;
    var charset := payload[pos];
    pos := pos + 1 + 23;
    var end := Nul(payload[pos..]);
    if end == |payload| - pos || !Utf8(payload[pos..][..end]) {
      return None;
    }
    var username := payload[pos..][..end];
    Further(payload, pos, end + 1);
    pos := pos + end + 1;
    var answer := ParseAuth(payload[pos..], capabilities);
    if answer == None {
      return None;
    }
    var (auth, left) := answer.value;
    var database: Option<Str> := None;
    if Bit(capabilities, CONNECT_WITH_DB) {
      var text := ParseText(left);
      if text == None {
        return None;
      }
      database, left := Some(text.value.0), text.value.1;
    }
    var plugin: Option<Str> := None;
    if Bit(capabilities, PLUGIN_AUTH) {
      var text := ParseText(left);
      if text == None {
        return None;
      }
      plugin := Some(text.value.0);
    }
    r := Some(Response(capabilities, maxPacket, charset, username, auth, database, plugin));
  }

  method ReadScrambleEnd(payload: Bytes, start: nat, capabilities: u32, length: nat) returns (tail: Bytes)
    requires start + 20 <= |payload|
    ensures tail == ScrambleEnd(payload[start..], capabilities, length)
  {
    var pos := start + 20 + 1 + 10;
    var part := if length > 9 then length - 9 else 0;
    tail := ZEROS[..12];
    if Bit(capabilities, SECURE_CONNECTION) && part > 0 && pos + part <= |payload| {
      var copied := if part < 12 then part else 12;
      assert payload[pos..pos + copied] == payload[start..][31..31 + copied];
      assert ZEROS[..12][copied..] == ZEROS[..12 - copied];
      tail := payload[pos..pos + copied] + tail[copied..];
    }
  }

  method ReadFields(version: byte, serverVersion: Str, payload: Bytes, start: nat) returns (r: Option<ServerGreeting>)
    requires start <= |payload|
    ensures r == ParseFields(version, serverVersion, payload[start..])
  {
    if start + 20 > |payload| {
      return None;
    }
    ghost var t := payload[start..];
    var pos := start;
    var connId := FromLittle(payload[pos..pos + 4]);
    assert payload[pos..pos + 4] == t[..4];
    pos := pos + 4;
    var scramble := payload[pos..pos + 8];
    assert scramble == t[4..12];
    pos := pos + 8 + 1;
    var lower := FromLittle(payload[pos..pos + 2]);
    assert payload[pos..pos + 2] == t[13..15];
    pos := pos + 2;
    var charset := payload[pos];
    pos := pos + 1 + 2;
    var upper := FromLittle(payload[pos..pos + 2]);
    assert payload[pos..pos + 2] == t[18..20];
    pos := pos + 2;
    assert upper * 0x1_0000 + lower == CapabilitiesOf(t);
    var capabilities: u32 := upper * 0x1_0000 + lower;
    var length := 0;
    if Bit(capabilities, PLUGIN_AUTH) {
      if pos >= |payload| {
        return None;
      }
      length := payload[pos];
    }
    var tail := ReadScrambleEnd(payload, start, capabilities, length);
    r := Some(ServerGreeting(version, serverVersion, connId, scramble + tail, capabilities, charset));
  }

  method ParseServerHandshake(payload: Bytes) returns (r: Option<ServerGreeting>)
    ensures r == ParseGreeting(payload)
  {
    if payload == [] {
      return None;
    }
    var pos := 1;
    var end := Nul(payload[pos..]);
    if end == |payload| - 1 || !Utf8(payload[pos..][..end]) {
      return None;
    }
    var serverVersion := payload[pos..][..end];
    Further(payload, pos, end + 1);
    pos := pos + end + 1;
    r := ReadFields(payload[0], serverVersion, payload, pos);
  }
}
