/** Canonical identity of cross-server offer-expiry commands (core/offer_expiry_contracts.py).

Python strings are sequences of code points. The canonical JSON text is built character by character, as
`json.dumps(ensure_ascii=True, sort_keys=True, separators=(",", ":"))` builds it, and read back. */
module CommandIdentity {
  import opened Wrappers

  type CodePoint = c: nat | c < 0x110000

  type Text = seq<CodePoint>

  /** A UTF-16 code unit. */
  type Unit = u: nat | u < 0x10000

  // ----- numbers

  function Digit(d: nat): char
    requires d < 10
  {
    ('0' as int + d) as char
  }

  predicate IsDigit(c: char) {
    '0' <= c <= '9'
  }

  function Decimal(n: nat): string {
    if n < 10 then [Digit(n)] else Decimal(n / 10) + [Digit(n % 10)]
  }

  /** Reads digits, continuing a number. */
  function ReadDigits(s: string, n: nat): (nat, string) {
    if s != [] && IsDigit(s[0]) then ReadDigits(s[1..], n * 10 + (s[0] as int - '0' as int)) else (n, s)
  }

  lemma {:induction false} ReadsDecimal(n: nat, rest: string)
    ensures ReadDigits(Decimal(n) + rest, 0) == ReadDigits(rest, n)
  {
    if n < 10 {
      assert (Decimal(n) + rest)[1..] == rest;
    } else {
      var d := [Digit(n % 10)];
      ReadsDecimal(n / 10, d + rest);
      assert Decimal(n) + rest == Decimal(n / 10) + (d + rest);
      assert (d + rest)[1..] == rest;
    }
  }

  // ----- JSON strings

  function HexDigit(d: nat): char
    requires d < 16
  {
    if d < 10 then ('0' as int + d) as char else ('a' as int + d - 10) as char
  }

  function HexValue(c: char): nat {
    if '0' <= c <= '9' then c as int - '0' as int
    else if 'a' <= c <= 'f' then c as int - 'a' as int + 10
    else 0
  }

  function Hex4(u: Unit): string {
    var a := u / 16;
    var b := a / 16;
    [HexDigit(b / 16), HexDigit(b % 16), HexDigit(a % 16), HexDigit(u % 16)]
  }

  /** The short escapes: quote, backslash and five control characters. */
  function ShortEscape(u: nat): Option<char> {
    if u == 34 then Some('"') else if u == 92 then Some('\\') else if u == 8 then Some('b')
    else if u == 12 then Some('f') else if u == 10 then Some('n') else if u == 13 then Some('r')
    else if u == 9 then Some('t') else None
  }

  function ShortUnescape(c: char): nat {
    if c == '"' then 34 else if c == '\\' then 92 else if c == 'b' then 8 else if c == 'f' then 12
    else if c == 'n' then 10 else if c == 'r' then 13 else 9
  }

  /** One UTF-16 code unit inside a JSON string. */
  function EscapeUnit(u: Unit): string {
    if ShortEscape(u).Some? then ['\\', ShortEscape(u).value]
    else if 32 <= u <= 126 then [u as char]
    else ['\\', 'u'] + Hex4(u)
  }

  function Escape(us: seq<Unit>): string {
    if us == [] then [] else EscapeUnit(us[0]) + Escape(us[1..])
  }

  /** Reads one escaped unit. */
  function ReadUnit(s: string): Option<(nat, string)> {
    if s == [] then None
    else if s[0] != '\\' then Some((s[0] as int, s[1..]))
    else if |s| >= 2 && s[1] != 'u' then Some((ShortUnescape(s[1]), s[2..]))
    else if |s| >= 6 then
      Some((4096 * HexValue(s[2]) + 256 * HexValue(s[3]) + 16 * HexValue(s[4]) + HexValue(s[5]), s[6..]))
    else None
  }

  /** Reads up to the closing quote, which it consumes. */
  function ReadString(s: string): Option<(seq<nat>, string)>
    decreases |s|
  {
    if s == [] then None
    else if s[0] == '"' then Some(([], s[1..]))
    else
      var unit := ReadUnit(s);
      if unit.None? then None
      else
        var tail := ReadString(unit.value.1);
        if tail.None? then None else Some(([unit.value.0] + tail.value.0, tail.value.1))
  }

  lemma HexDigitRead(d: nat)
    requires d < 16
    ensures HexValue(HexDigit(d)) == d
  {
  }

  lemma HexRead(u: Unit)
    ensures var h := Hex4(u); u == 4096 * HexValue(h[0]) + 256 * HexValue(h[1]) + 16 * HexValue(h[2]) + HexValue(h[3])
  {
    var a := u / 16;
    var b := a / 16;
    HexDigitRead(b / 16);
    HexDigitRead(b % 16);
    HexDigitRead(a % 16);
    HexDigitRead(u % 16);
  }

  lemma ReadsUnit(u: Unit, rest: string)
    ensures ReadUnit(EscapeUnit(u) + rest) == Some((u, rest)) && EscapeUnit(u)[0] != '"'
  {
    var s := EscapeUnit(u) + rest;
    if ShortEscape(u).Some? {
      assert s[2..] == rest;
    } else if 32 <= u <= 126 {
      assert s[1..] == rest;
    } else {
      HexRead(u);
      assert s[2] == Hex4(u)[0] && s[3] == Hex4(u)[1] && s[4] == Hex4(u)[2] && s[5] == Hex4(u)[3];
      assert s[6..] == rest;
    }
  }

  lemma {:induction false} ReadsString(us: seq<Unit>, rest: string)
    ensures ReadString(Escape(us) + ['"'] + rest) == Some((us, rest))
  {
    if us == [] {
      assert Escape(us) + ['"'] + rest == ['"'] + rest;
    } else {
      var tail := Escape(us[1..]) + ['"'] + rest;
      assert Escape(us) + ['"'] + rest == EscapeUnit(us[0]) + tail;
      ReadsUnit(us[0], tail);
      ReadsString(us[1..], rest);
      assert us == [us[0]] + us[1..];
    }
  }

  // ----- UTF-16

  predicate IsSurrogate(c: nat) {
    0xD800 <= c < 0xE000
  }

  /** A string of Unicode scalar values: no lone surrogates, which Python allows. */
  predicate IsScalar(s: Text) {
    forall c | c in s :: !IsSurrogate(c)
  }

  function UnitsOf(c: CodePoint): seq<Unit> {
    if c < 0x10000 then [c] else [0xD800 + (c - 0x10000) / 1024, 0xDC00 + (c - 0x10000) % 1024]
  }

  function Utf16(s: Text): seq<Unit> {
    if s == [] then [] else UnitsOf(s[0]) + Utf16(s[1..])
  }

  lemma Utf16NotEmpty(s: Text)
    ensures Utf16(s) == [] <==> s == []
  {
  }

  /** On scalar strings UTF-16 loses nothing. */
  lemma {:induction false} Utf16Injective(a: Text, b: Text)
    requires IsScalar(a) && IsScalar(b) && Utf16(a) == Utf16(b)
    ensures a == b
  {
    Utf16NotEmpty(a);
    Utf16NotEmpty(b);
    if a != [] && b != [] {
      var x, y := UnitsOf(a[0]), UnitsOf(b[0]);
      assert Utf16(a)[0] == x[0] && Utf16(b)[0] == y[0];
      assert !IsSurrogate(a[0]) && !IsSurrogate(b[0]);
      if |x| == 2 || |y| == 2 {
        assert |x| == 2 && |y| == 2;
        assert Utf16(a)[1] == x[1] && Utf16(b)[1] == y[1];
        SurrogatePairsDiffer(a[0], b[0]);
      }
      assert a[0] == b[0];
      assert Utf16(a)[|x|..] == Utf16(a[1..]) && Utf16(b)[|y|..] == Utf16(b[1..]);
      Utf16Injective(a[1..], b[1..]);
      assert a == [a[0]] + a[1..] && b == [b[0]] + b[1..];
    }
  }

  lemma SurrogatePairsDiffer(c: nat, d: nat)
    requires 0x10000 <= c < 0x110000 && 0x10000 <= d < 0x110000 && UnitsOf(c) == UnitsOf(d)
    ensures c == d
  {
  }

  // ----- canonical payloads

  /** `canonical_offer_expiry_command_payload`; the contract version is the constant 1. */
  datatype Payload = Payload(publicId: Text, owner: nat, actor: nat, surface: Text, server: Text, reason: Text)

  /** The payload as its JSON text shows it. */
  datatype Wire = Wire(publicId: seq<Unit>, owner: nat, actor: nat, surface: seq<Unit>, server: seq<Unit>, reason: seq<Unit>)

  function WireOf(p: Payload): Wire {
    Wire(Utf16(p.publicId), p.owner, p.actor, Utf16(p.surface), Utf16(p.server), Utf16(p.reason))
  }

  const ACTOR := "{\"actor_user_id\":"
  const VERSION := ",\"contract_version\":1"
  const REASON := ",\"expire_reason\":\""
  const PUBLIC_ID := ",\"offer_public_id\":\""
  const OWNER := ",\"owner_user_id\":"
  const SERVER := ",\"source_server\":\""
  const SURFACE := ",\"source_surface\":\""
  const CLOSE := "}"

  // The text from each key to the end, last key first.

  function FromSurface(w: Wire): string {
    SURFACE + (Escape(w.surface) + ['"'] + CLOSE)
  }

  function FromServer(w: Wire): string {
    SERVER + (Escape(w.server) + ['"'] + FromSurface(w))
  }

  function FromOwner(w: Wire): string {
    OWNER + (Decimal(w.owner) + FromServer(w))
  }

  function FromPublicId(w: Wire): string {
    PUBLIC_ID + (Escape(w.publicId) + ['"'] + FromOwner(w))
  }

  function FromReason(w: Wire): string {
    REASON + (Escape(w.reason) + ['"'] + FromPublicId(w))
  }

  function FromVersion(w: Wire): string {
    VERSION + FromReason(w)
  }

  /** `canonical_offer_expiry_command_bytes`; the text is ASCII. */
  function CanonicalText(p: Payload): string {
    ACTOR + (Decimal(p.actor) + FromVersion(WireOf(p)))
  }

  // ----- it is the JSON object with sorted keys

  datatype Json = Number(n: nat) | Units(us: seq<Unit>)

  function ValueText(v: Json): string {
    match v case Number(n) => Decimal(n) case Units(us) => ['"'] + Escape(us) + ['"']
  }

  function MemberText(m: (string, Json)): string {
    ['"'] + m.0 + ['"', ':'] + ValueText(m.1)
  }

  function MembersText(ms: seq<(string, Json)>): string {
    if ms == [] then [] else if |ms| == 1 then MemberText(ms[0]) else MemberText(ms[0]) + [','] + MembersText(ms[1..])
  }

  /** A JSON object without white space. */
  function ObjectText(ms: seq<(string, Json)>): string {
    ['{'] + MembersText(ms) + ['}']
  }

  /** The members of the payload from the i-th on. */
  function MembersFrom(w: Wire, i: nat): seq<(string, Json)>
    requires i <= 7
    decreases 7 - i
  {
    if i == 7 then []
    else
      [(KeyName(i),
        match i
        case 0 => Number(w.actor) case 1 => Number(1) case 2 => Units(w.reason) case 3 => Units(w.publicId)
        case 4 => Number(w.owner) case 5 => Units(w.server) case _ => Units(w.surface))]
        + MembersFrom(w, i + 1)
  }

  function KeyName(i: nat): string {
    match i
    case 0 => "actor_user_id" case 1 => "contract_version" case 2 => "expire_reason" case 3 => "offer_public_id"
    case 4 => "owner_user_id" case 5 => "source_server" case _ => "source_surface"
  }

  /** The rest of an object behind a member. */
  function Rest(ms: seq<(string, Json)>): string {
    if ms == [] then ['}'] else [','] + MembersText(ms) + ['}']
  }

  lemma Assoc(a: string, b: string, c: string)
    ensures a + b + c == a + (b + c)
  {
  }

  lemma MembersOf(m: (string, Json), ms: seq<(string, Json)>)
    ensures MembersText([m] + ms) + ['}'] == MemberText(m) + Rest(ms)
  {
    if ms == [] {
      assert [m] + ms == [m];
    } else {
      assert ([m] + ms)[1..] == ms;
      Assoc(MemberText(m), [','], MembersText(ms));
      Assoc(MemberText(m), [','] + MembersText(ms), ['}']);
    }
  }

  lemma RestOf(m: (string, Json), ms: seq<(string, Json)>)
    ensures Rest([m] + ms) == [','] + (MemberText(m) + Rest(ms))
    ensures ObjectText([m] + ms) == ['{'] + (MemberText(m) + Rest(ms))
  {
    MembersOf(m, ms);
    Assoc([','], MembersText([m] + ms), ['}']);
    Assoc(['{'], MembersText([m] + ms), ['}']);
  }

  /** The same text, grouped by members and as the constants group it. */
  lemma Regroup(first: char, key: string, value: string, rest: string)
    ensures [first] + ((['"'] + key + ['"', ':'] + value) + rest) == ([first, '"'] + key + ['"', ':']) + (value + rest)
  {
    Assoc(['"'] + key + ['"', ':'], value, rest);
    Assoc([first], ['"'] + key + ['"', ':'], value + rest);
    assert [first] + (['"'] + key + ['"', ':']) == [first, '"'] + key + ['"', ':'];
  }

  lemma RegroupString(key: string, text: string, rest: string)
    ensures ([',', '"'] + key + ['"', ':']) + ((['"'] + text + ['"']) + rest) == ([',', '"'] + key + ['"', ':', '"']) + (text + ['"'] + rest)
  {
    var head := [',', '"'] + key + ['"', ':'];
    assert head + ['"'] == [',', '"'] + key + ['"', ':', '"'];
    Assoc(['"'], text, ['"']);
    Assoc(['"'], text + ['"'], rest);
    Assoc(head, ['"'], text + ['"'] + rest);
  }

  lemma StringRest(key: string, us: seq<Unit>, ms: seq<(string, Json)>)
    ensures Rest([(key, Units(us))] + ms) == ([',', '"'] + key + ['"', ':', '"']) + (Escape(us) + ['"'] + Rest(ms))
  {
    RestOf((key, Units(us)), ms);
    Regroup(',', key, ValueText(Units(us)), Rest(ms));
    RegroupString(key, Escape(us), Rest(ms));
  }

  lemma NumberRest(key: string, n: nat, ms: seq<(string, Json)>)
    ensures Rest([(key, Number(n))] + ms) == ([',', '"'] + key + ['"', ':']) + (Decimal(n) + Rest(ms))
  {
    RestOf((key, Number(n)), ms);
    Regroup(',', key, ValueText(Number(n)), Rest(ms));
  }

  lemma SurfaceText(w: Wire)
    ensures FromSurface(w) == Rest(MembersFrom(w, 6))
  {
    assert SURFACE == [',', '"'] + KeyName(6) + ['"', ':', '"'];
    StringRest(KeyName(6), w.surface, []);
    assert MembersFrom(w, 6) == [(KeyName(6), Units(w.surface))] + MembersFrom(w, 7);
  }

  lemma ServerText(w: Wire)
    ensures FromServer(w) == Rest(MembersFrom(w, 5))
  {
    assert SERVER == [',', '"'] + KeyName(5) + ['"', ':', '"'];
    SurfaceText(w);
    StringRest(KeyName(5), w.server, MembersFrom(w, 6));
  }

  lemma OwnerText(w: Wire)
    ensures FromOwner(w) == Rest(MembersFrom(w, 4))
  {
    assert OWNER == [',', '"'] + KeyName(4) + ['"', ':'];
    ServerText(w);
    NumberRest(KeyName(4), w.owner, MembersFrom(w, 5));
  }

  lemma PublicIdText(w: Wire)
    ensures FromPublicId(w) == Rest(MembersFrom(w, 3))
  {
    assert PUBLIC_ID == [',', '"'] + KeyName(3) + ['"', ':', '"'];
    OwnerText(w);
    StringRest(KeyName(3), w.publicId, MembersFrom(w, 4));
  }

  lemma ReasonText(w: Wire)
    ensures FromReason(w) == Rest(MembersFrom(w, 2))
  {
    assert REASON == [',', '"'] + KeyName(2) + ['"', ':', '"'];
    PublicIdText(w);
    StringRest(KeyName(2), w.reason, MembersFrom(w, 3));
  }

  lemma VersionConstant()
    ensures VERSION == ([',', '"'] + KeyName(1) + ['"', ':']) + Decimal(1)
  {
  }

  lemma VersionText(w: Wire)
    ensures FromVersion(w) == Rest(MembersFrom(w, 1))
  {
    VersionConstant();
    ReasonText(w);
    NumberRest(KeyName(1), 1, MembersFrom(w, 2));
    Assoc([',', '"'] + KeyName(1) + ['"', ':'], Decimal(1), FromReason(w));
  }

  /** The canonical text is the JSON object of the payload's seven members. */
  lemma CanonicalTextIsJson(p: Payload)
    ensures CanonicalText(p) == ObjectText(MembersFrom(WireOf(p), 0))
  {
    var w := WireOf(p);
    VersionText(w);
    ActorText(w, MembersFrom(w, 1));
  }

  lemma ActorText(w: Wire, ms: seq<(string, Json)>)
    ensures ACTOR + (Decimal(w.actor) + Rest(ms)) == ObjectText([("actor_user_id", Number(w.actor))] + ms)
  {
    RestOf(("actor_user_id", Number(w.actor)), ms);
    Regroup('{', "actor_user_id", Decimal(w.actor), Rest(ms));
    assert ACTOR == ['{', '"'] + "actor_user_id" + ['"', ':'];
  }

  /** Before in the order of code points. */
  predicate Before(a: string, b: string) {
    if a == [] || b == [] then a == [] && b != [] else a[0] < b[0] || (a[0] == b[0] && Before(a[1..], b[1..]))
  }

  lemma {:induction false} BeforeBehind(prefix: string, a: string, b: string)
    requires Before(a, b)
    ensures Before(prefix + a, prefix + b)
  {
    if prefix == [] {
      assert prefix + a == a && prefix + b == b;
    } else {
      BeforeBehind(prefix[1..], a, b);
      assert (prefix + a)[1..] == prefix[1..] + a && (prefix + b)[1..] == prefix[1..] + b;
    }
  }

  /** And its keys are sorted. */
  lemma KeysSorted(i: nat)
    requires i < 6
    ensures Before(KeyName(i), KeyName(i + 1))
  {
    if i == 3 { OfferBeforeOwner(); }
    if i == 5 { ServerBeforeSurface(); }
  }

  lemma OfferBeforeOwner()
    ensures Before(KeyName(3), KeyName(4))
  {
    BeforeBehind("o", "ffer_public_id", "wner_user_id");
    assert "o" + "ffer_public_id" == KeyName(3) && "o" + "wner_user_id" == KeyName(4);
  }

  lemma ServerBeforeSurface()
    ensures Before(KeyName(5), KeyName(6))
  {
    BeforeBehind("source_s", "erver", "urface");
    assert "source_s" + "erver" == KeyName(5) && "source_s" + "urface" == KeyName(6);
  }

  // ----- reading it back

  function Skip(prefix: string, s: string): Option<string> {
    if prefix <= s then Some(s[|prefix|..]) else None
  }

  function KeyedString(key: string, s: string): Option<(seq<nat>, string)> {
    var body := Skip(key, s);
    if body.None? then None else ReadString(body.value)
  }

  function KeyedNumber(key: string, s: string): Option<(nat, string)> {
    var body := Skip(key, s);
    if body.None? then None else Some(ReadDigits(body.value, 0))
  }

  lemma Skips(prefix: string, s: string)
    ensures Skip(prefix, prefix + s) == Some(s)
  {
  }

  lemma ReadsKeyedString(key: string, us: seq<Unit>, rest: string)
    ensures KeyedString(key, key + (Escape(us) + ['"'] + rest)) == Some((us, rest))
  {
    Skips(key, Escape(us) + ['"'] + rest);
    ReadsString(us, rest);
  }

  lemma ReadsKeyedNumber(key: string, n: nat, rest: string)
    requires rest != [] && !IsDigit(rest[0])
    ensures KeyedNumber(key, key + (Decimal(n) + rest)) == Some((n, rest))
  {
    Skips(key, Decimal(n) + rest);
    ReadsDecimal(n, rest);
  }

  /** The canonical encoding is unambiguous: two payloads have one text exactly when they have the same
  numbers and the same strings up to UTF-16. */
  lemma SameTextExactlyWhen(p: Payload, q: Payload)
    ensures CanonicalText(p) == CanonicalText(q) <==> WireOf(p) == WireOf(q)
  {
    if CanonicalText(p) == CanonicalText(q) {
      var w, v := WireOf(p), WireOf(q);
      ReadsKeyedNumber(ACTOR, w.actor, FromVersion(w));
      ReadsKeyedNumber(ACTOR, v.actor, FromVersion(v));
      Skips(VERSION, FromReason(w));
      Skips(VERSION, FromReason(v));
      assert FromReason(w) == FromReason(v);
      ReadsKeyedString(REASON, w.reason, FromPublicId(w));
      ReadsKeyedString(REASON, v.reason, FromPublicId(v));
      assert FromPublicId(w) == FromPublicId(v);
      ReadsKeyedString(PUBLIC_ID, w.publicId, FromOwner(w));
      ReadsKeyedString(PUBLIC_ID, v.publicId, FromOwner(v));
      assert FromOwner(w) == FromOwner(v);
      ReadsKeyedNumber(OWNER, w.owner, FromServer(w));
      ReadsKeyedNumber(OWNER, v.owner, FromServer(v));
      assert FromServer(w) == FromServer(v);
      ReadsKeyedString(SERVER, w.server, FromSurface(w));
      ReadsKeyedString(SERVER, v.server, FromSurface(v));
      ReadsKeyedString(SURFACE, w.surface, CLOSE);
      ReadsKeyedString(SURFACE, v.surface, CLOSE);
    }
  }

  predicate Scalar(p: Payload) {
    IsScalar(p.publicId) && IsScalar(p.surface) && IsScalar(p.server) && IsScalar(p.reason)
  }

  /** On payloads without lone surrogates the encoding is injective. */
  lemma CanonicalTextInjective(p: Payload, q: Payload)
    requires Scalar(p) && Scalar(q) && CanonicalText(p) == CanonicalText(q)
    ensures p == q
  {
    SameTextExactlyWhen(p, q);
    Utf16Injective(p.publicId, q.publicId);
    Utf16Injective(p.surface, q.surface);
    Utf16Injective(p.server, q.server);
    Utf16Injective(p.reason, q.reason);
  }

  function SurrogatePair(c: CodePoint): Text
    requires c >= 0x10000
  {
    [0xD800 + (c - 0x10000) / 1024, 0xDC00 + (c - 0x10000) % 1024]
  }

  lemma PairHasSameUnits(c: CodePoint)
    requires c >= 0x10000
    ensures Utf16(SurrogatePair(c)) == Utf16([c])
  {
    var pair := SurrogatePair(c);
    assert [c][1..] == [] && pair[1..] == [pair[1]] && [pair[1]][1..] == [];
    assert Utf16([pair[1]]) == [pair[1]];
    assert Utf16(pair) == [pair[0]] + [pair[1]];
  }

  // ----- normalisation

  /** The arguments as callers pass them: texts, and numbers as `int()` reads them. */
  datatype Args = Args(
    publicId: Text, owner: Option<int>, actor: Option<Option<int>>, surface: Text, server: Text, reason: Text)

  datatype Error = PublicIdInvalid | OwnerInvalid | ActorInvalid | ServerInvalid | SurfaceInvalid | ReasonInvalid
    | OfferIdInvalid | IdentityMismatch

  type Uuid = int

  /** `str.lower`, UUIDv5 under the command namespace, its text and hex forms, and SHA-256. */
  datatype Env = Env(
    lower: Text -> Text, uuid5: string -> Uuid, textOf: Uuid -> string, parse: string -> Option<Uuid>,
    hexOf: Uuid -> string, sha256: string -> string)

  ghost predicate Lawful(env: Env) {
    && (forall a: string, b: string :: env.uuid5(a) == env.uuid5(b) ==> a == b)
    && (forall u: Uuid :: env.parse(env.textOf(u)) == Some(u))
    && (forall s: Text | IsLabel(s) :: env.lower(s) == s)
    && (forall u: Uuid, v: Uuid :: env.hexOf(u) == env.hexOf(v) ==> u == v)
  }

  /** `str.isspace`, the characters that `strip` removes. */
  predicate IsSpace(c: nat) {
    9 <= c <= 13 || 28 <= c <= 32 || c == 0x85 || c == 0xA0 || c == 0x1680 || 0x2000 <= c <= 0x200A
    || c == 0x2028 || c == 0x2029 || c == 0x202F || c == 0x205F || c == 0x3000
  }

  function Strip(s: Text): (r: Text)
    ensures r == [] || (!IsSpace(r[0]) && !IsSpace(r[|r| - 1]))
    decreases |s|
  {
    if s == [] then []
    else if IsSpace(s[0]) then Strip(s[1..])
    else if IsSpace(s[|s| - 1]) then Strip(s[..|s| - 1])
    else s
  }

  ghost predicate AllSpace(s: Text) {
    forall c | c in s :: IsSpace(c)
  }

  /** Stripping takes away white space at both ends and nothing else. */
  lemma {:induction false} StripTrims(s: Text) returns (a: Text, b: Text)
    ensures s == a + Strip(s) + b && AllSpace(a) && AllSpace(b)
    decreases |s|
  {
    a, b := [], [];
    if s != [] && IsSpace(s[0]) {
      a, b := StripTrims(s[1..]);
      Outside([s[0]], a, Strip(s), b);
      assert s == [s[0]] + s[1..];
      a := [s[0]] + a;
    } else if s != [] && IsSpace(s[|s| - 1]) {
      a, b := StripTrims(s[..|s| - 1]);
      Outside([s[|s| - 1]], a, Strip(s), b);
      assert s == s[..|s| - 1] + [s[|s| - 1]];
      b := b + [s[|s| - 1]];
    } else {
      assert s == [] + s + [];
    }
  }

  lemma Outside(c: Text, a: Text, middle: Text, b: Text)
    ensures c + (a + middle + b) == c + a + middle + b && a + middle + b + c == a + middle + (b + c)
  {
  }

  predicate IsLabelChar(c: nat) {
    97 <= c <= 122 || 48 <= c <= 57 || c == 95
  }

  /** The shape `^[a-z0-9_]+$`. */
  predicate IsLabel(s: Text) {
    s != [] && forall c | c in s :: IsLabelChar(c)
  }

  /** `_command_label`. */
  function Label(env: Env, s: Text, maxLength: nat): (r: Option<Text>)
    ensures r.Some? ==> IsScalar(r.value)
  {
    var name := env.lower(Strip(s));
    if !IsLabel(name) || |name| > maxLength then None else Some(name)
  }

  const IRAN: Text := [105, 114, 97, 110]
  const FOREIGN: Text := [102, 111, 114, 101, 105, 103, 110]
  const ID_PREFIX: Text := [111, 102, 114, 95]

  /** At most 40 characters, the prefix `ofr_`, and more than eight characters besides `ofr`. */
  predicate IsPublicId(s: Text) {
    |s| <= 40 && ID_PREFIX <= s && |s| > 11
  }

  lemma {:induction false} Utf16Concat(a: Text, b: Text)
    ensures Utf16(a + b) == Utf16(a) + Utf16(b)
  {
    if a == [] {
      assert a + b == b;
    } else {
      assert (a + b)[1..] == a[1..] + b;
      Utf16Concat(a[1..], b);
    }
  }

  /** The condition is needed: public ids that end in a character outside the basic plane, and in its two
  lone surrogates, differ and have one text. */
  lemma SurrogatesCollide(p: Payload, x: Text, c: CodePoint)
    requires c >= 0x10000 && ID_PREFIX <= x && 11 < |x| <= 38
    ensures IsPublicId(x + [c]) && IsPublicId(x + SurrogatePair(c)) && x + [c] != x + SurrogatePair(c)
    ensures CanonicalText(p.(publicId := x + [c])) == CanonicalText(p.(publicId := x + SurrogatePair(c)))
  {
    PairHasSameUnits(c);
    Utf16Concat(x, [c]);
    Utf16Concat(x, SurrogatePair(c));
    SameTextExactlyWhen(p.(publicId := x + [c]), p.(publicId := x + SurrogatePair(c)));
    assert |x + [c]| != |x + SurrogatePair(c)|;
  }

  function Positive(n: Option<int>): Option<nat> {
    if n.Some? && n.value > 0 then Some(n.value) else None
  }

  /** `canonical_offer_expiry_command_payload`, with its checks in their order. */
  function Canonical(env: Env, a: Args): Result<Payload, Error> {
    var publicId, owner := Strip(a.publicId), Positive(a.owner);
    var actor := if a.actor.None? then owner else Positive(a.actor.value);
    var server, surface, reason := Label(env, a.server, 16), Label(env, a.surface, 32), Label(env, a.reason, 32);
    if !IsPublicId(publicId) then Err(PublicIdInvalid)
    else if owner.None? then Err(OwnerInvalid)
    else if actor.None? then Err(ActorInvalid)
    else if server.None? || (server.value != IRAN && server.value != FOREIGN) then Err(ServerInvalid)
    else if surface.None? then Err(SurfaceInvalid)
    else if reason.None? then Err(ReasonInvalid)
    else Ok(Payload(publicId, owner.value, actor.value, surface.value, server.value, reason.value))
  }

  /** An absent actor stands for the owner. */
  lemma AbsentActorIsOwner(env: Env, a: Args)
    ensures Canonical(env, a.(actor := None)) == Canonical(env, a.(actor := Some(a.owner)))
  {
  }

  ghost predicate IsLabelled(env: Env, s: Text, maxLength: nat) {
    IsLabel(env.lower(Strip(s))) && |env.lower(Strip(s))| <= maxLength
  }

  /** A command is accepted exactly when its trimmed public id has the right shape, owner and any actor are positive, and
  server, surface and reason are labels in lower case, the server one of the two; and then the payload holds them. */
  lemma CanonicalExactlyWhen(env: Env, a: Args)
    ensures Canonical(env, a).Ok? <==>
            && 12 <= |Strip(a.publicId)| <= 40 && Strip(a.publicId)[..4] == [111, 102, 114, 95]
            && a.owner.Some? && a.owner.value > 0
            && (a.actor.Some? ==> a.actor.value.Some? && a.actor.value.value > 0)
            && (env.lower(Strip(a.server)) == IRAN || env.lower(Strip(a.server)) == FOREIGN)
            && IsLabelled(env, a.surface, 32) && IsLabelled(env, a.reason, 32)
    ensures Canonical(env, a).Ok? ==>
            Canonical(env, a).value == Payload(
              Strip(a.publicId), a.owner.value, if a.actor.Some? then a.actor.value.value else a.owner.value,
              env.lower(Strip(a.surface)), env.lower(Strip(a.server)), env.lower(Strip(a.reason)))
  {
    ServersAreLabels();
  }

  /** A payload in normal form. */
  predicate IsCanonical(p: Payload) {
    && IsPublicId(p.publicId) && Strip(p.publicId) == p.publicId && p.owner > 0 && p.actor > 0
    && (p.server == IRAN || p.server == FOREIGN)
    && IsLabel(p.surface) && |p.surface| <= 32 && IsLabel(p.reason) && |p.reason| <= 32
  }

  /** A payload passed as arguments again. */
  function ArgsOf(p: Payload): Args {
    Args(p.publicId, Some(p.owner), Some(Some(p.actor)), p.surface, p.server, p.reason)
  }

  lemma LabelIsFixed(env: Env, s: Text, maxLength: nat)
    requires Lawful(env) && IsLabel(s) && |s| <= maxLength
    ensures Label(env, s, maxLength) == Some(s)
  {
    assert s[0] in s && s[|s| - 1] in s;
    assert Strip(s) == s;
  }

  lemma ServersAreLabels()
    ensures IsLabel(IRAN) && IsLabel(FOREIGN) && |IRAN| <= 16 && |FOREIGN| <= 16
  {
  }

  /** Canonical payloads are exactly the fixed points of the normalisation. */
  lemma CanonicalIsFixed(env: Env, p: Payload)
    requires Lawful(env)
    ensures IsCanonical(p) <==> Canonical(env, ArgsOf(p)) == Ok(p)
  {
    ServersAreLabels();
    if IsCanonical(p) {
      LabelIsFixed(env, p.server, 16);
      LabelIsFixed(env, p.surface, 32);
      LabelIsFixed(env, p.reason, 32);
    }
  }

  /** And every accepted command is normalised to one. */
  lemma CommandsAreCanonical(env: Env, a: Args)
    requires Lawful(env) && Canonical(env, a).Ok?
    ensures IsCanonical(Canonical(env, a).value)
    ensures Canonical(env, ArgsOf(Canonical(env, a).value)) == Canonical(env, a)
  {
    StripTwice(a.publicId);
    CanonicalIsFixed(env, Canonical(env, a).value);
  }

  // ----- identities

  datatype Identity = Identity(commandId: Uuid, idempotencyKey: string, requestHash: string)

  const KEY_PREFIX := "offer-expiry:v1:"

  function IdentityOf(env: Env, p: Payload): Identity {
    var text := CanonicalText(p);
    var id := env.uuid5(text);
    Identity(id, KEY_PREFIX + env.hexOf(id), env.sha256(text))
  }

  /** `build_offer_expiry_command_identity`. */
  function BuildIdentity(env: Env, a: Args): Result<Identity, Error> {
    match Canonical(env, a)
    case Err(e) => Err(e)
    case Ok(p) => Ok(IdentityOf(env, p))
  }

  /** `validate_offer_expiry_command_identity`. */
  function Validate(env: Env, commandId: Uuid, idempotencyKey: string, a: Args): Result<Identity, Error> {
    var expected := BuildIdentity(env, a);
    if expected.Ok? && (commandId != expected.value.commandId || idempotencyKey != expected.value.idempotencyKey)
    then Err(IdentityMismatch)
    else expected
  }

  /** The receiver accepts exactly the command id and the key of the command itself; a wrong id or key, and a command that
  is refused, are errors. */
  lemma ValidateExactlyWhen(env: Env, commandId: Uuid, idempotencyKey: string, a: Args)
    ensures Validate(env, commandId, idempotencyKey, a).Ok? <==>
            && Canonical(env, a).Ok? && commandId == env.uuid5(CanonicalText(Canonical(env, a).value))
            && idempotencyKey == "offer-expiry:v1:" + env.hexOf(commandId)
    ensures Validate(env, commandId, idempotencyKey, a).Ok? ==> Validate(env, commandId, idempotencyKey, a) == BuildIdentity(env, a)
    ensures Canonical(env, a).Ok? && Validate(env, commandId, idempotencyKey, a).Err? ==>
            Validate(env, commandId, idempotencyKey, a) == Err(IdentityMismatch)
  {
  }

  /** Keys and request hashes are the command's: keys are equal exactly when ids are, and request hashes exactly when the
  canonical texts are, unless SHA-256 collides on them. */
  lemma KeysAndHashes(env: Env, p: Payload, q: Payload)
    requires Lawful(env)
    ensures IdentityOf(env, p).idempotencyKey == IdentityOf(env, q).idempotencyKey <==> IdentityOf(env, p).commandId == IdentityOf(env, q).commandId
    ensures IdentityOf(env, p).requestHash == IdentityOf(env, q).requestHash <==> env.sha256(CanonicalText(p)) == env.sha256(CanonicalText(q))
    ensures KEY_PREFIX <= IdentityOf(env, p).idempotencyKey
  {
    var x, y := env.hexOf(IdentityOf(env, p).commandId), env.hexOf(IdentityOf(env, q).commandId);
    assert (KEY_PREFIX + x)[|KEY_PREFIX|..] == x && (KEY_PREFIX + y)[|KEY_PREFIX|..] == y;
  }

  lemma EqualIdsEqualPayloads(env: Env, p: Payload, q: Payload)
    requires Lawful(env) && Scalar(p) && Scalar(q)
    ensures IdentityOf(env, p).commandId == IdentityOf(env, q).commandId <==> p == q
  {
    if env.uuid5(CanonicalText(p)) == env.uuid5(CanonicalText(q)) {
      CanonicalTextInjective(p, q);
    }
  }

  lemma CanonicalIsScalar(env: Env, a: Args)
    requires Canonical(env, a).Ok? && IsScalar(Strip(a.publicId))
    ensures Scalar(Canonical(env, a).value)
  {
  }

  /** For all commands: ids are equal exactly when the canonical payloads agree up to UTF-16. */
  lemma EqualIdsExactlyWhen(env: Env, a: Args, b: Args)
    requires Lawful(env) && Canonical(env, a).Ok? && Canonical(env, b).Ok?
    ensures BuildIdentity(env, a).value.commandId == BuildIdentity(env, b).value.commandId <==>
            WireOf(Canonical(env, a).value) == WireOf(Canonical(env, b).value)
  {
    SameTextExactlyWhen(Canonical(env, a).value, Canonical(env, b).value);
  }

  /** Distinct commands have distinct ids: equal ids mean equal canonical payloads. */
  lemma EqualIdsEqualCommands(env: Env, a: Args, b: Args)
    requires Lawful(env) && Canonical(env, a).Ok? && Canonical(env, b).Ok?
    requires IsScalar(Strip(a.publicId)) && IsScalar(Strip(b.publicId))
    ensures BuildIdentity(env, a).value.commandId == BuildIdentity(env, b).value.commandId <==>
            Canonical(env, a) == Canonical(env, b)
  {
    CanonicalIsScalar(env, a);
    CanonicalIsScalar(env, b);
    EqualIdsEqualPayloads(env, Canonical(env, a).value, Canonical(env, b).value);
  }

  // ----- forwarding

  datatype Forward = Forward(
    offerId: nat, publicId: Option<Text>, owner: Option<int>, actor: Option<Option<int>>, surface: Text, server: Text,
    reason: Text, command: Option<(string, string)>)

  function OrNone(s: Text): Option<Text> {
    if s == [] then None else Some(s)
  }

  function OrEmpty(s: Option<Text>): Text {
    if s.None? then [] else s.value
  }

  /** `build_offer_expiry_forward_payload`. */
  function BuildForward(env: Env, offerId: Option<int>, a: Args, includeIdentity: bool): Result<Forward, Error> {
    var id, publicId := Positive(offerId), OrNone(Strip(a.publicId));
    if id.None? then Err(OfferIdInvalid)
    else if !includeIdentity then Ok(Forward(id.value, publicId, a.owner, a.actor, a.surface, a.server, a.reason, None))
    else
      var a' := a.(publicId := OrEmpty(publicId));
      var identity, canonical := BuildIdentity(env, a'), Canonical(env, a');
      match identity
      case Err(e) => Err(e)
      case Ok(i) =>
        Ok(Forward(id.value, publicId, a.owner, Some(Some(canonical.value.actor)), a.surface, a.server, a.reason,
                   Some((env.textOf(i.commandId), i.idempotencyKey))))
  }

  /** A forward payload names the offer and repeats the command; the id and key go with it exactly on request. */
  lemma ForwardCarries(env: Env, offerId: Option<int>, a: Args, includeIdentity: bool)
    ensures BuildForward(env, offerId, a, includeIdentity).Ok? <==>
            offerId.Some? && offerId.value > 0 && (includeIdentity ==> Canonical(env, a.(publicId := Strip(a.publicId))).Ok?)
    ensures BuildForward(env, offerId, a, includeIdentity).Ok? ==>
            var f := BuildForward(env, offerId, a, includeIdentity).value;
            && f.offerId == offerId.value && OrEmpty(f.publicId) == Strip(a.publicId) && (f.publicId.Some? ==> f.publicId.value != [])
            && f.owner == a.owner && f.surface == a.surface && f.server == a.server && f.reason == a.reason
            && (f.command.Some? <==> includeIdentity) && (!includeIdentity ==> f.actor == a.actor)
  {
  }

  /** The arguments that the receiver reads out of a forward payload. */
  function Received(f: Forward): Args {
    Args(OrEmpty(f.publicId), f.owner, f.actor, f.surface, f.server, f.reason)
  }

  lemma StripTwice(s: Text)
    ensures Strip(Strip(s)) == Strip(s)
  {
  }

  lemma StrippedIsSame(env: Env, a: Args)
    ensures Canonical(env, a.(publicId := Strip(a.publicId))) == Canonical(env, a)
  {
  }

  lemma CanonicalActorIsSame(env: Env, a: Args)
    requires Canonical(env, a).Ok?
    ensures Canonical(env, a.(actor := Some(Some(Canonical(env, a).value.actor)))) == Canonical(env, a)
  {
  }

  lemma ForwardIs(env: Env, offerId: Option<int>, a: Args, f: Forward)
    requires BuildForward(env, offerId, a, true) == Ok(f)
    ensures Canonical(env, a).Ok? && f.command == Some((env.textOf(IdentityOf(env, Canonical(env, a).value).commandId), IdentityOf(env, Canonical(env, a).value).idempotencyKey))
    ensures Received(f) == a.(publicId := Strip(a.publicId), actor := Some(Some(Canonical(env, a).value.actor)))
  {
    StrippedIsSame(env, a);
  }

  /** Every forward payload with an identity validates at the receiver to the identity of the sender's own
  arguments. */
  lemma ForwardRevalidates(env: Env, offerId: Option<int>, a: Args)
    requires Lawful(env) && BuildForward(env, offerId, a, true).Ok?
    ensures var f := BuildForward(env, offerId, a, true).value;
            && f.command.Some? && env.parse(f.command.value.0).Some?
            && Validate(env, env.parse(f.command.value.0).value, f.command.value.1, Received(f)) == BuildIdentity(env, a)
  {
    var f := BuildForward(env, offerId, a, true).value;
    ForwardIs(env, offerId, a, f);
    StrippedIsSame(env, a);
    CanonicalActorIsSame(env, a.(publicId := Strip(a.publicId)));
    assert Canonical(env, Received(f)) == Canonical(env, a);
  }
}
