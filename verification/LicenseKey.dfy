/** services/license.py: signed licence keys. The payload travels as base64url text without padding (section 5 of RFC 4648),
    followed by a dot and the hexadecimal signature of that text. */
module LicenseKey {
  import opened Sequences

  type byte = x: int | 0 <= x < 256

  type digit = x: int | 0 <= x < 64

  // ----- base64url -----

  function Symbol(v: digit): char {
    if v < 26 then ('A' as int + v) as char
    else if v < 52 then ('a' as int + v - 26) as char
    else if v < 62 then ('0' as int + v - 52) as char
    else if v == 62 then '-' else '_'
  }

  /** The decoder takes the symbols of both alphabets of RFC 4648. */
  function Value(c: char): Option<digit> {
    if 'A' <= c <= 'Z' then Some(c as int - 'A' as int)
    else if 'a' <= c <= 'z' then Some(c as int - 'a' as int + 26)
    else if '0' <= c <= '9' then Some(c as int - '0' as int + 52)
    else if c == '-' || c == '+' then Some(62)
    else if c == '_' || c == '/' then Some(63)
    else None
  }

  /** Three bytes to four symbols, the last group filled up with '='. */
  function Encoded(b: seq<byte>): string {
    if b == [] then ""
    else if |b| == 1 then [Symbol(b[0] / 4), Symbol(b[0] % 4 * 16), '=', '=']
    else if |b| == 2 then [Symbol(b[0] / 4), Symbol(b[0] % 4 * 16 + b[1] / 16), Symbol(b[1] % 16 * 4), '=']
    else Group(b[0], b[1], b[2]) + Encoded(b[3..])
  }

  function Group(b0: byte, b1: byte, b2: byte): string {
    [Symbol(b0 / 4), Symbol(b0 % 4 * 16 + b1 / 16), Symbol(b1 % 16 * 4 + b2 / 64), Symbol(b2 % 64)]
  }

  function WithoutPadding(s: string): string {
    if s != "" && s[|s| - 1] == '=' then WithoutPadding(s[..|s| - 1]) else s
  }

  function Equals(n: nat): string {
    if n == 0 then "" else Equals(n - 1) + "="
  }

  /** The decoder puts back as many '=' as the length of the text calls for. */
  function Repadded(s: string): string {
    s + Equals((4 - |s| % 4) % 4)
  }

  /** The library's scanner: `at` symbols of the current group have been read, `left` holds their unused bits and `pads` counts
      the '=' since the last symbol. Characters outside the alphabet are passed over, and a complete padding ends the text. */
  function Scan(s: string, at: nat, left: nat, pads: nat): Option<seq<byte>>
    requires at <= 3
    requires match at { case 0 => left == 0 case 1 => left < 64 case 2 => left < 16 case _ => left < 4 }
  {
    if s == "" then if at == 0 then Some([]) else None
    else if s[0] == '=' then
      if at >= 2 && at + pads + 1 >= 4 then Some([]) else Scan(s[1..], at, left, if at >= 2 then pads + 1 else pads)
    else if Value(s[0]) == None then Scan(s[1..], at, left, pads)
    else
      var v := Value(s[0]).value;
      if at == 0 then Scan(s[1..], 1, v, 0)
      else if at == 1 then Emit(left * 4 + v / 16, Scan(s[1..], 2, v % 16, 0))
      else if at == 2 then Emit(left * 16 + v / 4, Scan(s[1..], 3, v % 4, 0))
      else Emit(left * 64 + v, Scan(s[1..], 0, 0, 0))
  }

  function Emit(b: byte, rest: Option<seq<byte>>): Option<seq<byte>> {
    if rest.Some? then Some([b] + rest.value) else None
  }

  lemma SymbolValue(v: digit)
    ensures Value(Symbol(v)) == Some(v) && Symbol(v) != '=' && Symbol(v) != '.' && Symbol(v) < 128 as char
  {
  }

  lemma ScanSymbol(v: digit, rest: string, at: nat, left: nat, pads: nat)
    requires at <= 3
    requires match at { case 0 => left == 0 case 1 => left < 64 case 2 => left < 16 case _ => left < 4 }
    ensures Scan([Symbol(v)] + rest, at, left, pads)
            == match at
               case 0 => Scan(rest, 1, v, 0)
               case 1 => Emit(left * 4 + v / 16, Scan(rest, 2, v % 16, 0))
               case 2 => Emit(left * 16 + v / 4, Scan(rest, 3, v % 4, 0))
               case _ => Emit(left * 64 + v, Scan(rest, 0, 0, 0))
  {
    SymbolValue(v);
    assert ([Symbol(v)] + rest)[1..] == rest;
  }

  lemma ScanPadding(left: nat)
    ensures left < 16 ==> Scan("==", 2, left, 0) == Some([])
    ensures left < 4 ==> Scan("=", 3, left, 0) == Some([])
  {
    assert "=="[1..] == "=";
  }

  lemma ScanGroup(b0: byte, b1: byte, b2: byte, rest: string, pads: nat)
    ensures Scan(Group(b0, b1, b2) + rest, 0, 0, pads) == Emit(b0, Emit(b1, Emit(b2, Scan(rest, 0, 0, 0))))
  {
    hide Scan, Symbol, Emit;
    var x, y, z, w := b0 / 4, b0 % 4 * 16 + b1 / 16, b1 % 16 * 4 + b2 / 64, b2 % 64;
    assert y / 16 == b0 % 4 && y % 16 == b1 / 16 && z / 4 == b1 % 16 && z % 4 == b2 / 64;
    var after3 := [Symbol(w)] + rest;
    var after2 := [Symbol(z)] + after3;
    var after1 := [Symbol(y)] + after2;
    assert Group(b0, b1, b2) + rest == [Symbol(x)] + after1;
    ScanSymbol(x, after1, 0, 0, pads);
    ScanSymbol(y, after2, 1, x, 0);
    ScanSymbol(z, after3, 2, y % 16, 0);
    ScanSymbol(w, rest, 3, z % 4, 0);
  }

  /** The scanner undoes the encoder. */
  lemma {:induction false} ScanInverts(b: seq<byte>, pads: nat)
    ensures Scan(Encoded(b), 0, 0, pads) == Some(b)
  {
    if |b| >= 3 {
      ScanInverts(b[3..], 0);
      hide Scan;
      ScanGroup(b[0], b[1], b[2], Encoded(b[3..]), pads);
      assert b == [b[0]] + ([b[1]] + ([b[2]] + b[3..]));
    } else if |b| == 2 {
      ScanTwo(b[0], b[1], pads);
      hide Scan;
      assert b == [b[0]] + ([b[1]] + []);
    } else if |b| == 1 {
      ScanOne(b[0], pads);
      hide Scan;
      assert b == [b[0]] + [];
    }
  }

  lemma ScanTwo(b0: byte, b1: byte, pads: nat)
    ensures Scan([Symbol(b0 / 4), Symbol(b0 % 4 * 16 + b1 / 16), Symbol(b1 % 16 * 4), '='], 0, 0, pads)
            == Emit(b0, Emit(b1, Some([])))
  {
    hide Scan, Symbol, Emit;
    var x, y, z := b0 / 4, b0 % 4 * 16 + b1 / 16, b1 % 16 * 4;
    assert y / 16 == b0 % 4 && y % 16 == b1 / 16 && z / 4 == b1 % 16;
    var after2 := [Symbol(z)] + "=";
    var after1 := [Symbol(y)] + after2;
    assert [Symbol(x), Symbol(y), Symbol(z), '='] == [Symbol(x)] + after1;
    ScanSymbol(x, after1, 0, 0, pads);
    ScanSymbol(y, after2, 1, x, 0);
    ScanSymbol(z, "=", 2, y % 16, 0);
    ScanPadding(z % 4);
  }

  lemma ScanOne(b0: byte, pads: nat)
    ensures Scan([Symbol(b0 / 4), Symbol(b0 % 4 * 16), '=', '='], 0, 0, pads) == Emit(b0, Some([]))
  {
    hide Scan, Symbol, Emit;
    var x, y := b0 / 4, b0 % 4 * 16;
    var after1 := [Symbol(y)] + "==";
    assert [Symbol(x), Symbol(y), '=', '='] == [Symbol(x)] + after1;
    ScanSymbol(x, after1, 0, 0, pads);
    ScanSymbol(y, "==", 1, x, 0);
    ScanPadding(y % 16);
  }

  // ----- Padding -----

  predicate Clean(s: string) {
    forall c | c in s :: c != '=' && c != '.' && c < 128 as char
  }

  lemma CleanSymbol(v: digit, rest: string)
    requires Clean(rest)
    ensures Clean([Symbol(v)] + rest)
  {
    SymbolValue(v);
  }

  /** The encoder's text is symbols followed by the padding of their number, which is never 1 modulo 4. */
  lemma {:induction false} EncodedShape(b: seq<byte>) returns (symbols: string)
    ensures Clean(symbols) && |symbols| % 4 != 1 && Encoded(b) == Repadded(symbols)
  {
    if |b| >= 3 {
      var rest := EncodedShape(b[3..]);
      symbols := GroupShape(b[0], b[1], b[2], rest);
    } else {
      symbols := LastGroupShape(b);
    }
  }

  lemma GroupShape(b0: byte, b1: byte, b2: byte, rest: string) returns (symbols: string)
    requires Clean(rest)
    ensures Clean(symbols) && |symbols| == |rest| + 4 && Repadded(symbols) == Group(b0, b1, b2) + Repadded(rest)
  {
    hide Symbol, Clean, Equals;
    var after3 := [Symbol(b2 % 64)] + rest;
    CleanSymbol(b2 % 64, rest);
    var after2 := [Symbol(b1 % 16 * 4 + b2 / 64)] + after3;
    CleanSymbol(b1 % 16 * 4 + b2 / 64, after3);
    var after1 := [Symbol(b0 % 4 * 16 + b1 / 16)] + after2;
    CleanSymbol(b0 % 4 * 16 + b1 / 16, after2);
    symbols := [Symbol(b0 / 4)] + after1;
    CleanSymbol(b0 / 4, after1);
    assert symbols == Group(b0, b1, b2) + rest && |symbols| % 4 == |rest| % 4;
  }

  lemma CleanOne(v: digit)
    ensures Clean([Symbol(v)])
  {
    SymbolValue(v);
  }

  lemma FewEquals(s: string)
    ensures s == "" ==> Repadded(s) == ""
    ensures |s| == 2 ==> Repadded(s) == s + "=="
    ensures |s| == 3 ==> Repadded(s) == s + "="
  {
    assert Equals(0) == "" && Equals(1) == "=" && Equals(2) == Equals(1) + "=" == "==";
    hide Equals;
  }

  lemma LastGroupShape(b: seq<byte>) returns (symbols: string)
    requires |b| < 3
    ensures Clean(symbols) && |symbols| % 4 != 1 && Encoded(b) == Repadded(symbols)
  {
    hide Symbol, Repadded;
    if b == [] {
      symbols := "";
    } else if |b| == 1 {
      var x, y := b[0] / 4, b[0] % 4 * 16;
      symbols := [Symbol(x)] + [Symbol(y)];
      CleanOne(y);
      CleanSymbol(x, [Symbol(y)]);
    } else {
      var x, y, z := b[0] / 4, b[0] % 4 * 16 + b[1] / 16, b[1] % 16 * 4;
      symbols := [Symbol(x)] + ([Symbol(y)] + [Symbol(z)]);
      CleanOne(z);
      CleanSymbol(y, [Symbol(z)]);
      CleanSymbol(x, [Symbol(y)] + [Symbol(z)]);
    }
    hide Clean;
    FewEquals(symbols);
  }

  lemma {:induction false} StripEquals(s: string, n: nat)
    requires Clean(s)
    ensures WithoutPadding(s + Equals(n)) == s
  {
    if n == 0 {
      assert s + "" == s;
      assert s != "" ==> s[|s| - 1] in s;
    } else {
      var padded, shorter := s + Equals(n), s + Equals(n - 1);
      assert padded[..|padded| - 1] == shorter && padded[|padded| - 1] == '=';
      StripEquals(s, n - 1);
    }
  }

  /** Stripping the padding loses nothing: what is left is never of a length 1 modulo 4, padding it again gives the encoder's
      text back, and scanning that gives the bytes back. */
  lemma PaddingRoundTrip(b: seq<byte>)
    ensures var text := WithoutPadding(Encoded(b));
            && Clean(text) && |text| % 4 != 1
            && Repadded(text) == Encoded(b)
            && Scan(Repadded(text), 0, 0, 0) == Some(b)
  {
    hide Scan;
    var symbols := EncodedShape(b);
    StripEquals(symbols, (4 - |symbols| % 4) % 4);
    ScanInverts(b, 0);
  }

  // ----- Keys -----

  const PREFIX := "repod_lic_"

  const MICROSECONDS_PER_DAY := 86_400_000_000

  datatype Expiry = Never | Illegible | At(time: int)

  datatype Payload = Payload(edition: string, licenseId: string, issuedTo: string, features: seq<string>, expires: Expiry)

  /** What bytes hold: no JSON text at all, JSON that is not an object, or an object. */
  datatype Json = NoJson | NotAnObject | Object(payload: Payload)

  /** The vendor's signature of a text and the two directions of the JSON encoding. */
  datatype Vendor = Vendor(sign: string -> string, dump: Payload -> seq<byte>, load: seq<byte> -> Json)

  ghost predicate IsVendor(v: Vendor) {
    && (forall s :: Clean(v.sign(s)))
    && (forall p :: v.load(v.dump(p)) == Object(p))
  }

  function GenerateLicenseKey(v: Vendor, p: Payload, expiresDays: Option<int>, now: int): string {
    var dated := p.(expires := if expiresDays.Some? then At(now + expiresDays.value * MICROSECONDS_PER_DAY) else Never);
    var text := WithoutPadding(Encoded(v.dump(dated)));
    Key(text, v.sign(text))
  }

  /** Raised is an exception other than the one that stands for an invalid key. */
  datatype Decoded = Invalid | Raised | Licence(payload: Payload, expired: bool, daysRemaining: Option<int>)

  predicate Ascii(s: string) {
    forall c | c in s :: c < 128 as char
  }

  /** Where the last dot is. */
  function LastDot(s: string): nat
    requires '.' in s
    ensures LastDot(s) < |s|
  {
    if s[|s| - 1] == '.' then |s| - 1 else LastDot(s[..|s| - 1])
  }

  function DaysBetween(now: int, then_: int): int {
    var days := (then_ - now) / MICROSECONDS_PER_DAY;
    if days < 0 then 0 else days
  }

  function Judged(p: Payload, now: int): Decoded {
    if p.expires.At? then Licence(p, now > p.expires.time, Some(DaysBetween(now, p.expires.time))) else Licence(p, false, None)
  }

  /** What the bytes of an unpadded text hold. */
  function Holds(v: Vendor, text: string): Json {
    var bytes := Scan(Repadded(text), 0, 0, 0);
    if bytes.Some? then v.load(bytes.value) else NoJson
  }

  function Opened(j: Json, now: int): Decoded {
    match j
    case NoJson => Invalid
    case NotAnObject => Raised
    case Object(p) => Judged(p, now)
  }

  function DecodeLicenseKey(v: Vendor, key: string, now: int): Decoded {
    if !(PREFIX <= key) || '.' !in key[|PREFIX|..] then Invalid
    else
      var body := key[|PREFIX|..];
      var text, received := body[..LastDot(body)], body[LastDot(body) + 1..];
      if !Ascii(text) || !Ascii(received) then Raised
      else if received != v.sign(text) then Invalid
      else Opened(Holds(v, text), now)
  }

  lemma {:induction false} LastDotSplits(text: string, sig: string)
    requires '.' !in sig
    ensures '.' in text + "." + sig && LastDot(text + "." + sig) == |text|
  {
    var s := text + "." + sig;
    assert s[|text|] == '.';
    if sig != "" {
      assert s[|s| - 1] == sig[|sig| - 1] && sig[|sig| - 1] in sig;
      assert s[..|s| - 1] == text + "." + sig[..|sig| - 1];
      LastDotSplits(text, sig[..|sig| - 1]);
    }
  }

  lemma {:induction false} LastDotIs(s: string)
    requires '.' in s
    ensures s[LastDot(s)] == '.' && '.' !in s[LastDot(s) + 1..]
  {
    if s[|s| - 1] != '.' {
      LastDotIs(s[..|s| - 1]);
      assert s[LastDot(s) + 1..] == s[..|s| - 1][LastDot(s) + 1..] + [s[|s| - 1]];
    }
  }

  function Key(text: string, sig: string): string {
    PREFIX + text + "." + sig
  }

  /** A key is put together from a text and a signature without a dot in one way only, found by splitting at the last dot. */
  lemma KeySplits(text: string, sig: string)
    requires '.' !in sig
    ensures var key := Key(text, sig);
            && PREFIX <= key && '.' in key[|PREFIX|..]
            && var body := key[|PREFIX|..];
               body[..LastDot(body)] == text && body[LastDot(body) + 1..] == sig
  {
    var key := Key(text, sig);
    LastDotSplits(text, sig);
    hide LastDot;
    assert key[|PREFIX|..] == text + "." + sig;
  }

  lemma KeyJoins(key: string)
    requires PREFIX <= key && '.' in key[|PREFIX|..]
    ensures var body := key[|PREFIX|..];
            var text, sig := body[..LastDot(body)], body[LastDot(body) + 1..];
            && key == Key(text, sig) && '.' !in sig
            && (Ascii(body) <==> Ascii(text) && Ascii(sig))
  {
    var body := key[|PREFIX|..];
    LastDotIs(body);
    hide LastDot, Ascii;
    var text, sig := body[..LastDot(body)], body[LastDot(body) + 1..];
    assert body == text + "." + sig;
    AsciiJoined(text, sig);
  }

  lemma AsciiJoined(a: string, b: string)
    ensures Ascii(a + "." + b) <==> Ascii(a) && Ascii(b)
  {
    var s := a + "." + b;
    assert forall c :: c in s <==> c in a || c == '.' || c in b;
  }

  /** Every key the vendor generates decodes to its payload, with its expiry: active up to that instant and no later. */
  lemma GeneratedKeyDecodes(v: Vendor, p: Payload, expiresDays: Option<int>, issued: int, now: int)
    requires IsVendor(v)
    ensures "repod_lic_" <= GenerateLicenseKey(v, p, expiresDays, issued)
    ensures var d := DecodeLicenseKey(v, GenerateLicenseKey(v, p, expiresDays, issued), now);
            && d.Licence? && d.payload == p.(expires := d.payload.expires)
            && (d.expired <==> expiresDays.Some? && now > issued + expiresDays.value * MICROSECONDS_PER_DAY)
            && (d.daysRemaining.Some? <==> expiresDays.Some?)
            && (expiresDays.Some? && now == issued && expiresDays.value >= 0 ==> d.daysRemaining == expiresDays)
  {
    hide Scan, Encoded, WithoutPadding, Repadded, LastDot, Key;
    var dated := p.(expires := if expiresDays.Some? then At(issued + expiresDays.value * MICROSECONDS_PER_DAY) else Never);
    var text := WithoutPadding(Encoded(v.dump(dated)));
    PaddingRoundTrip(v.dump(dated));
    assert Clean(v.sign(text));
    KeySplits(text, v.sign(text));
    assert DecodeLicenseKey(v, Key(text, v.sign(text)), now) == Opened(Object(dated), now);
  }

  ghost predicate SignedObject(v: Vendor, key: string, text: string) {
    Ascii(text) && key == Key(text, v.sign(text)) && Holds(v, text).Object?
  }

  ghost predicate SignedOther(v: Vendor, key: string, text: string) {
    Ascii(text) && key == Key(text, v.sign(text)) && Holds(v, text).NotAnObject?
  }

  /** A key is taken as a licence exactly when it is the signed form of a text that holds a JSON object. */
  lemma LicenceIff(v: Vendor, key: string, now: int)
    requires IsVendor(v)
    ensures DecodeLicenseKey(v, key, now).Licence? <==> exists text :: SignedObject(v, key, text)
  {
    hide Scan, Repadded, LastDot, Key;
    if PREFIX <= key && '.' in key[|PREFIX|..] {
      KeyJoins(key);
      var text := key[|PREFIX|..][..LastDot(key[|PREFIX|..])];
      assert DecodeLicenseKey(v, key, now).Licence? ==> SignedObject(v, key, text);
    }
    forall text | SignedObject(v, key, text) ensures DecodeLicenseKey(v, key, now).Licence? {
      assert Clean(v.sign(text));
      KeySplits(text, v.sign(text));
    }
  }

  /** What such a key is taken for: its payload, expired from the instant after its expiry on, with the whole days left, none when it is
      past; a payload without an expiry, or with one that cannot be read, does not expire. */
  lemma LicenceMeaning(v: Vendor, key: string, text: string, now: int)
    requires IsVendor(v) && SignedObject(v, key, text)
    ensures var d, p := DecodeLicenseKey(v, key, now), Holds(v, text).payload;
            && d.Licence? && d.payload == p
            && (d.expired <==> p.expires.At? && now > p.expires.time)
            && (d.daysRemaining.Some? <==> p.expires.At?)
            && (p.expires.At? ==>
                  && d.daysRemaining.value >= 0 && (now >= p.expires.time ==> d.daysRemaining.value == 0)
                  && (now <= p.expires.time ==>
                        && now + d.daysRemaining.value * 86_400_000_000 <= p.expires.time
                        && p.expires.time < now + (d.daysRemaining.value + 1) * 86_400_000_000))
  {
    hide Scan, Repadded, LastDot, Key, Holds;
    assert Clean(v.sign(text));
    KeySplits(text, v.sign(text));
    assert Ascii(v.sign(text)) by { CleanIsAscii(v.sign(text)); }
  }

  lemma CleanIsAscii(s: string)
    requires Clean(s)
    ensures Ascii(s)
  {
  }

  /** Exactly when decoding raises something else than the error for an invalid key: a dotted body with a character outside
      ASCII, whoever wrote it, or signed JSON that is not an object. */
  lemma RaisesIff(v: Vendor, key: string, now: int)
    requires IsVendor(v)
    ensures DecodeLicenseKey(v, key, now).Raised?
            <==> || (PREFIX <= key && '.' in key[|PREFIX|..] && !Ascii(key[|PREFIX|..]))
                 || exists text :: SignedOther(v, key, text)
  {
    hide Scan, Repadded, LastDot, Key;
    forall text | SignedOther(v, key, text) ensures DecodeLicenseKey(v, key, now).Raised? {
      assert Clean(v.sign(text));
      KeySplits(text, v.sign(text));
    }
    if PREFIX <= key && '.' in key[|PREFIX|..] {
      KeyJoins(key);
      var body := key[|PREFIX|..];
      var text, received := body[..LastDot(body)], body[LastDot(body) + 1..];
      assert Ascii(body) && DecodeLicenseKey(v, key, now).Raised? ==> SignedOther(v, key, text);
    }
  }

  // ----- The stored key -----

  class LicenseStore {
    var key: string

    constructor ()
      ensures key == ""
    {
      key := "";
    }

    /** Stores a key that decodes and has not expired; any other leaves the stored key alone. */
    method ActivateLicense(v: Vendor, k: string, now: int) returns (d: Decoded)
      modifies this
      ensures d == DecodeLicenseKey(v, k, now)
      ensures key == if d.Licence? && !d.expired then k else old(key)
    {
      d := DecodeLicenseKey(v, k, now);
      if d.Licence? && !d.expired {
        key := k;
      }
    }

    method DeactivateLicense()
      modifies this
      ensures key == ""
    {
      key := "";
    }

    /** None when the exception goes through to the caller. */
    method GetEdition(v: Vendor, now: int) returns (edition: Option<string>)
      ensures edition.None? <==> key != "" && DecodeLicenseKey(v, key, now).Raised?
      ensures edition == Some("enterprise")
              <==> var d := DecodeLicenseKey(v, key, now);
                   key != "" && d.Licence? && !d.expired && d.payload.edition == "enterprise"
      ensures edition.Some? ==> edition.value in ["community", "enterprise"]
    {
      if key == "" {
        return Some("community");
      }
      var d := DecodeLicenseKey(v, key, now);
      if d.Raised? {
        return None;
      }
      edition := if d.Licence? && !d.expired && d.payload.edition == "enterprise" then Some("enterprise") else Some("community");
    }
  }

  /** An enterprise key activated before its expiry gives the enterprise edition until that instant and not after. */
  method ActivatedUntilExpiry(v: Vendor, p: Payload, days: nat, issued: int, now: int, later: int) returns (edition: Option<string>)
    requires IsVendor(v) && p.edition == "enterprise" && now <= issued + days * MICROSECONDS_PER_DAY
    ensures edition == Some("enterprise") <==> later <= issued + days * MICROSECONDS_PER_DAY
  {
    var store := new LicenseStore();
    var k := GenerateLicenseKey(v, p, Some(days), issued);
    GeneratedKeyDecodes(v, p, Some(days), issued, now);
    GeneratedKeyDecodes(v, p, Some(days), issued, later);
    var d := store.ActivateLicense(v, k, now);
    edition := store.GetEdition(v, later);
  }
}
