/** The tracestate header (ahp/core/context.py): a comma-separated list of entries, one of which
    carries agent id, sequence and chain hash in base64url without padding (section 5 of RFC 4648,
    section 3.3 of W3C Trace Context). */
module TraceContext {
  import opened Bytes

  // --------------------------------------------------------------------- base64url

  function Digit(v: nat): char
    requires v < 64
  {
    if v < 26 then 'A' + v as char
    else if v < 52 then 'a' + (v - 26) as char
    else if v < 62 then '0' + (v - 52) as char
    else if v == 62 then '-'
    else '_'
  }

  function Value(c: char): Option<nat> {
    if 'A' <= c <= 'Z' then Some((c - 'A') as nat)
    else if 'a' <= c <= 'z' then Some(26 + (c - 'a') as nat)
    else if '0' <= c <= '9' then Some(52 + (c - '0') as nat)
    else if c == '-' then Some(62)
    else if c == '_' then Some(63)
    else None
  }

  lemma DigitValue(v: nat)
    requires v < 64
    ensures Value(Digit(v)) == Some(v)
  {
  }

  /** Three bytes become four digits; one or two bytes at the end become two or three. */
  function Encode64(data: bytes): string {
    if data == [] then ""
    else if |data| == 1 then
      var a := data[0] as nat;
      [Digit(a / 4), Digit(a % 4 * 16)]
    else if |data| == 2 then
      var a, b := data[0] as nat, data[1] as nat;
      [Digit(a / 4), Digit(a % 4 * 16 + b / 16), Digit(b % 16 * 4)]
    else
      var a, b, c := data[0] as nat, data[1] as nat, data[2] as nat;
      [Digit(a / 4), Digit(a % 4 * 16 + b / 16), Digit(b % 16 * 4 + c / 64), Digit(c % 64)] + Encode64(data[3..])
  }

  /** The values of the digits, or None where one is foreign. */
  function Values(text: string): Option<seq<nat>> {
    if text == "" then Some([])
    else
      match (Value(text[0]), Values(text[1..]))
      case (Some(v), Some(vs)) => Some([v] + vs)
      case _ => None
  }

  // The bytes that neighbouring digits spell.
  function First(v: nat, w: nat): byte { ((v * 4 + w / 16) % 256) as byte }

  function Second(v: nat, w: nat): byte { ((v * 16 + w / 4) % 256) as byte }

  function Third(v: nat, w: nat): byte { ((v * 64 + w) % 256) as byte }

  function Decode64(text: string): Option<bytes> {
    if text == "" then Some([])
    else if |text| == 1 then None
    else if |text| < 4 then
      match Values(text)
      case None => None
      case Some(v) =>
        if |v| == 2 then Some([First(v[0], v[1])])
        else if |v| == 3 then Some([First(v[0], v[1]), Second(v[1], v[2])])
        else None
    else
      match Values(text[..4])
      case None => None
      case Some(v) =>
        match Decode64(text[4..])
        case None => None
        case Some(rest) =>
          if |v| == 4 then Some([First(v[0], v[1]), Second(v[1], v[2]), Third(v[2], v[3])] + rest) else None
  }

  lemma ValuesOf(vs: seq<nat>, text: string)
    requires |vs| == |text| && forall i :: 0 <= i < |vs| ==> vs[i] < 64 && text[i] == Digit(vs[i])
    ensures Values(text) == Some(vs)
  {
    hide Digit, Value;
    if vs != [] {
      DigitValue(vs[0]);
      ValuesOf(vs[1..], text[1..]);
      assert vs == [vs[0]] + vs[1..];
    }
  }

  lemma {:induction false} Base64RoundTrip(data: bytes)
    ensures Decode64(Encode64(data)) == Some(data)
  {
    hide Digit, Value, Values, First, Second, Third;
    if |data| == 1 {
      OneByte(data);
    } else if |data| == 2 {
      TwoBytes(data);
    } else if |data| > 2 {
      var a, b, c := data[0] as nat, data[1] as nat, data[2] as nat;
      var vs := [a / 4, a % 4 * 16 + b / 16, b % 16 * 4 + c / 64, c % 64];
      var text := Encode64(data);
      Base64RoundTrip(data[3..]);
      ValuesOf(vs, text[..4]);
      assert text[4..] == Encode64(data[3..]);
      Regroup(a, b, c);
      assert data == [data[0], data[1], data[2]] + data[3..];
    }
  }

  lemma OneByte(data: bytes)
    requires |data| == 1
    ensures Decode64(Encode64(data)) == Some(data)
  {
    hide Digit, Value, Values, First;
    var a := data[0] as nat;
    var v, w := a / 4, a % 4 * 16 + 0;
    RegroupFirst(a, 0);
    ValuesOf([v, w], Encode64(data));
    assert data == [data[0]];
  }

  lemma TwoBytes(data: bytes)
    requires |data| == 2
    ensures Decode64(Encode64(data)) == Some(data)
  {
    hide Digit, Value, Values, First, Second;
    var a, b := data[0] as nat, data[1] as nat;
    var v, w, x := a / 4, a % 4 * 16 + b / 16, b % 16 * 4 + 0;
    RegroupFirst(a, b / 16);
    RegroupSecond(a % 4, b, 0);
    ValuesOf([v, w, x], Encode64(data));
    assert data == [data[0], data[1]];
  }

  lemma Regroup(a: nat, b: nat, c: nat)
    requires a < 256 && b < 256 && c < 256
    ensures First(a / 4, a % 4 * 16 + b / 16) == a as byte
    ensures Second(a % 4 * 16 + b / 16, b % 16 * 4 + c / 64) == b as byte
    ensures Third(b % 16 * 4 + c / 64, c % 64) == c as byte
  {
    hide First, Second, Third;
    RegroupFirst(a, b / 16);
    RegroupSecond(a % 4, b, c / 64);
    RegroupThird(b % 16, c);
  }

  lemma RegroupFirst(a: nat, q: nat)
    requires a < 256 && q < 16
    ensures First(a / 4, a % 4 * 16 + q) == a as byte
  {
    assert (a % 4 * 16 + q) / 16 == a % 4;
  }

  lemma RegroupSecond(r: nat, b: nat, q: nat)
    requires r < 4 && b < 256 && q < 4
    ensures Second(r * 16 + b / 16, b % 16 * 4 + q) == b as byte
  {
    assert (b % 16 * 4 + q) / 4 == b % 16;
    assert (r * 16 + b / 16) * 16 + b % 16 == r * 256 + b;
  }

  lemma RegroupThird(r: nat, c: nat)
    requires r < 16 && c < 256
    ensures Third(r * 4 + c / 64, c % 64) == c as byte
  {
    assert (r * 4 + c / 64) * 64 + c % 64 == r * 256 + c;
  }

  // -------------------------------------------------------------------- the payload

  function BigEndian(v: nat, n: nat): (b: bytes)
    ensures |b| == n
    decreases n, v
  {
    if n == 0 then [] else BigEndian(v / 256, n - 1) + [(v % 256) as byte]
  }

  function FromBigEndian(b: bytes): nat {
    if b == [] then 0 else FromBigEndian(b[..|b| - 1]) * 256 + b[|b| - 1] as nat
  }

  lemma {:induction false} BigEndianRoundTrip(v: nat, n: nat)
    requires v < Pow256(n)
    ensures FromBigEndian(BigEndian(v, n)) == v
    decreases n
  {
    if n > 0 {
      BigEndianRoundTrip(v / 256, n - 1);
      assert BigEndian(v, n)[..n - 1] == BigEndian(v / 256, n - 1);
    }
  }

  datatype Link = Link(agentId: bytes, sequence: nat, chainHash: bytes)

  /** encode_tracestate_ahp, for a sequence that fits 64 bits. */
  function EncodeAhp(agentId: bytes, sequence: nat, chainHash: bytes): string {
    Encode64(agentId + BigEndian(sequence, 8) + if |chainHash| <= 16 then chainHash else chainHash[..16])
  }

  /** decode_tracestate_ahp */
  function DecodeAhp(encoded: string): Option<Link> {
    match Decode64(encoded)
    case None => None
    case Some(data) =>
      if |data| != 40 then None else Some(Link(data[..16], FromBigEndian(data[16..24]), data[24..]))
  }

  lemma AhpRoundTrip(agentId: bytes, sequence: nat, chainHash: bytes)
    requires |agentId| == 16 && sequence <= MAX_UINT64 && |chainHash| >= 16
    ensures DecodeAhp(EncodeAhp(agentId, sequence, chainHash)) == Some(Link(agentId, sequence, chainHash[..16]))
  {
    hide Encode64, Decode64, BigEndian, FromBigEndian;
    Widths();
    var data := agentId + BigEndian(sequence, 8) + chainHash[..16];
    Base64RoundTrip(data);
    BigEndianRoundTrip(sequence, 8);
    assert data[..16] == agentId && data[16..24] == BigEndian(sequence, 8) && data[24..] == chainHash[..16];
    assert |chainHash| <= 16 ==> chainHash == chainHash[..16];
  }

  // ------------------------------------------------------------------ the entry list

  /** str.isspace for one character. */
  predicate Space(c: char) {
    '\t' <= c <= '\r' || '\U{1c}' <= c <= ' ' || c == '\U{85}' || c == '\U{a0}' || c == '\U{1680}'
    || '\U{2000}' <= c <= '\U{200a}' || c == '\U{2028}' || c == '\U{2029}' || c == '\U{202f}' || c == '\U{205f}'
    || c == '\U{3000}'
  }

  function StripLeft(s: string): string {
    if s != "" && Space(s[0]) then StripLeft(s[1..]) else s
  }

  function StripRight(s: string): string {
    if s != "" && Space(s[|s| - 1]) then StripRight(s[..|s| - 1]) else s
  }

  function Strip(s: string): string {
    StripRight(StripLeft(s))
  }

  /** str.split(","), which always gives at least one piece. */
  function Split(s: string): (pieces: seq<string>)
    ensures pieces != []
  {
    if s == "" then [""]
    else
      var rest := Split(s[1..]);
      if s[0] == ',' then [""] + rest else [[s[0]] + rest[0]] + rest[1..]
  }

  /** ",".join */
  function Join(pieces: seq<string>): string {
    if pieces == [] then "" else if |pieces| == 1 then pieces[0] else pieces[0] + "," + Join(pieces[1..])
  }

  const AHP: string := "ahp="

  predicate IsAhp(entry: string) { |entry| >= 4 && entry[..4] == AHP }

  /** The entries that survive an update, in order. */
  function Others(pieces: seq<string>): seq<string> {
    if pieces == [] then []
    else
      var entry := Strip(pieces[0]);
      (if entry != "" && !IsAhp(entry) then [entry] else []) + Others(pieces[1..])
  }

  /** All entries of a header. */
  function Entries(header: string): seq<string> {
    Trimmed(Split(header))
  }

  function Trimmed(pieces: seq<string>): seq<string> {
    if pieces == [] then []
    else (if Strip(pieces[0]) != "" then [Strip(pieces[0])] else []) + Trimmed(pieces[1..])
  }

  /** create_tracestate */
  function Updated(value: string, existing: string): string {
    Join([AHP + value] + Others(Split(existing)))
  }

  /** The first ahp entry of these pieces, decoded. */
  function FirstAhp(pieces: seq<string>): Option<Link> {
    if pieces == [] then None
    else if IsAhp(Strip(pieces[0])) then DecodeAhp(Strip(pieces[0])[4..])
    else FirstAhp(pieces[1..])
  }

  lemma NoOthers()
    ensures Others(Split("")) == []
  {
  }

  lemma OthersFrom(pieces: seq<string>, i: nat)
    requires i < |pieces|
    ensures Others(pieces[i..])
         == (if Strip(pieces[i]) != "" && !IsAhp(Strip(pieces[i])) then [Strip(pieces[i])] else [])
            + Others(pieces[i + 1..])
  {
    hide Strip, IsAhp;
    assert pieces[i..][0] == pieces[i] && pieces[i..][1..] == pieces[i + 1..];
  }

  lemma OthersEnd(pieces: seq<string>)
    ensures Others(pieces[|pieces|..]) == []
  {
  }

  lemma UpdatedIs(value: string, existing: string)
    ensures Updated(value, existing) == Join([AHP + value] + Others(Split(existing)))
  {
  }

  method CreateTracestate(ahpValue: string, existing: string) returns (header: string)
    ensures header == Updated(ahpValue, existing)
  {
    hide *;
    NoOthers();
    var pairs: seq<string> := [];
    if existing != "" {
      var pieces := Split(existing);
      assert pieces[0..] == pieces;
      for i := 0 to |pieces|
        invariant pairs + Others(pieces[i..]) == Others(pieces)
      {
        OthersFrom(pieces, i);
        var pair := Strip(pieces[i]);
        if pair != "" && !IsAhp(pair) {
          pairs := pairs + [pair];
        }
      }
      OthersEnd(pieces);
      assert pairs + [] == pairs;
    }
    UpdatedIs(ahpValue, existing);
    pairs := [AHP + ahpValue] + pairs;
    return Join(pairs);
  }

  method ParseTracestate(tracestate: string) returns (link: Option<Link>)
    ensures link == FirstAhp(Split(tracestate))
  {
    hide Strip, Split, DecodeAhp;
    var pieces := Split(tracestate);
    for i := 0 to |pieces|
      invariant FirstAhp(pieces) == FirstAhp(pieces[i..])
    {
      assert pieces[i..][0] == pieces[i] && pieces[i..][1..] == pieces[i + 1..];
      var pair := Strip(pieces[i]);
      if IsAhp(pair) {
        return DecodeAhp(pair[4..]);
      }
    }
    return None;
  }

  // ---------------------------------------------------------------------- properties

  /** An entry as the header holds it: no comma, no space at either end, not empty. */
  predicate Tidy(entry: string) {
    entry != "" && ',' !in entry && !Space(entry[0]) && !Space(entry[|entry| - 1])
  }

  predicate AllTidy(entries: seq<string>) {
    forall i :: 0 <= i < |entries| ==> Tidy(entries[i])
  }

  lemma {:induction false} StripLeftPart(s: string)
    ensures ',' !in s ==> ',' !in StripLeft(s)
    ensures StripLeft(s) == "" || !Space(StripLeft(s)[0])
  {
    hide Space;
    if s != "" && Space(s[0]) {
      StripLeftPart(s[1..]);
    }
  }

  lemma {:induction false} StripRightPart(s: string)
    ensures StripRight(s) <= s
    ensures StripRight(s) == "" || !Space(StripRight(s)[|StripRight(s)| - 1])
  {
    hide Space;
    if s != "" && Space(s[|s| - 1]) {
      StripRightPart(s[..|s| - 1]);
    }
  }

  lemma StripClean(s: string)
    requires ',' !in s && Strip(s) != ""
    ensures Tidy(Strip(s))
  {
    hide Space;
    StripLeftPart(s);
    StripRightPart(StripLeft(s));
  }

  lemma CleanStrip(s: string)
    requires Tidy(s)
    ensures Strip(s) == s
  {
    hide Space;
  }

  lemma {:induction false} SplitPieces(s: string)
    ensures forall i :: 0 <= i < |Split(s)| ==> ',' !in Split(s)[i]
  {
    if s != "" {
      SplitPieces(s[1..]);
    }
  }

  lemma {:induction false} SplitPlain(s: string)
    requires ',' !in s
    ensures Split(s) == [s]
  {
    if s != "" {
      SplitPlain(s[1..]);
      assert [s[0]] + s[1..] == s;
    }
  }

  lemma {:induction false} SplitFirst(s: string, rest: string)
    requires ',' !in s
    ensures Split(s + "," + rest) == [s] + Split(rest)
  {
    var all := s + "," + rest;
    if s == "" {
      assert all[1..] == rest;
    } else {
      SplitFirst(s[1..], rest);
      assert all[1..] == s[1..] + "," + rest;
      assert [s[0]] + s[1..] == s;
    }
  }

  lemma {:induction false} SplitJoin(entries: seq<string>)
    requires AllTidy(entries) && entries != []
    ensures Split(Join(entries)) == entries
  {
    hide Split, Space;
    if |entries| == 1 {
      SplitPlain(entries[0]);
    } else {
      SplitFirst(entries[0], Join(entries[1..]));
      SplitJoin(entries[1..]);
    }
  }

  lemma {:induction false} OthersClean(pieces: seq<string>)
    requires forall i :: 0 <= i < |pieces| ==> ',' !in pieces[i]
    ensures AllTidy(Others(pieces))
    ensures forall i :: 0 <= i < |Others(pieces)| ==> !IsAhp(Others(pieces)[i])
  {
    hide Strip, Tidy, IsAhp;
    if pieces != [] {
      if Strip(pieces[0]) != "" {
        StripClean(pieces[0]);
      }
      OthersClean(pieces[1..]);
    }
  }

  lemma {:induction false} TrimmedClean(entries: seq<string>)
    requires AllTidy(entries)
    ensures Trimmed(entries) == entries
  {
    hide Strip, Space;
    if entries != [] {
      CleanStrip(entries[0]);
      TrimmedClean(entries[1..]);
      assert entries == [entries[0]] + entries[1..];
    }
  }

  lemma {:induction false} OthersOfClean(entries: seq<string>)
    requires AllTidy(entries) && forall i :: 0 <= i < |entries| ==> !IsAhp(entries[i])
    ensures Others(entries) == entries
  {
    hide Strip, Space;
    if entries != [] {
      CleanStrip(entries[0]);
      OthersOfClean(entries[1..]);
      assert entries == [entries[0]] + entries[1..];
    }
  }

  /** A value that can stand in an entry. */
  predicate PlainValue(v: string) {
    ',' !in v && (v != "" ==> !Space(v[|v| - 1]))
  }

  lemma AhpEntryClean(v: string)
    requires PlainValue(v)
    ensures Tidy(AHP + v) && IsAhp(AHP + v) && (AHP + v)[4..] == v
  {
    assert (AHP + v)[..4] == AHP;
  }

  lemma UpdatedPieces(v: string, existing: string)
    requires PlainValue(v)
    ensures var others := Others(Split(existing));
      && Split(Updated(v, existing)) == [AHP + v] + others
      && AllTidy([AHP + v] + others) && forall i :: 0 <= i < |others| ==> !IsAhp(others[i])
  {
    hide Split, Others, Tidy, PlainValue, IsAhp;
    SplitPieces(existing);
    OthersClean(Split(existing));
    AhpEntryClean(v);
    SplitJoin([AHP + v] + Others(Split(existing)));
  }

  /** The header after an update: one ahp entry in front, all other entries kept in their order. */
  lemma UpdateKeepsOthers(v: string, existing: string)
    requires PlainValue(v)
    ensures Entries(Updated(v, existing)) == [AHP + v] + Others(Split(existing))
    ensures forall i :: 0 <= i < |Others(Split(existing))| ==> !IsAhp(Others(Split(existing))[i])
  {
    hide Split, Others, Trimmed, PlainValue, Updated, IsAhp, AllTidy;
    UpdatedPieces(v, existing);
    TrimmedClean([AHP + v] + Others(Split(existing)));
  }

  /** A second update replaces the first. */
  lemma UpdateReplaces(v: string, w: string, existing: string)
    requires PlainValue(v)
    ensures Updated(w, Updated(v, existing)) == Updated(w, existing)
  {
    hide Split, PlainValue, Strip, Tidy, IsAhp, Join;
    UpdatedPieces(v, existing);
    AhpEntryClean(v);
    var others := Others(Split(existing));
    assert AllTidy(others) by {
      assert forall i :: 0 <= i < |others| ==> others[i] == ([AHP + v] + others)[i + 1];
    }
    OthersOfClean(others);
    CleanStrip(AHP + v);
    assert ([AHP + v] + others)[0] == AHP + v && ([AHP + v] + others)[1..] == others;
    assert Others([AHP + v] + others) == [] + Others(others);
    assert Others(Split(Updated(v, existing))) == others;
    assert Updated(w, Updated(v, existing)) == Join([AHP + w] + others);
  }

  lemma {:induction false} EncodedPlain(data: bytes)
    ensures forall i :: 0 <= i < |Encode64(data)| ==> Value(Encode64(data)[i]).Some?
  {
    hide Digit, Value;
    var text := Encode64(data);
    if |data| == 1 {
      var a := data[0] as nat;
      DigitValue(a / 4);
      DigitValue(a % 4 * 16);
    } else if |data| == 2 {
      var a, b := data[0] as nat, data[1] as nat;
      DigitValue(a / 4);
      DigitValue(a % 4 * 16 + b / 16);
      DigitValue(b % 16 * 4);
    } else if |data| > 2 {
      var a, b, c := data[0] as nat, data[1] as nat, data[2] as nat;
      DigitValue(a / 4);
      DigitValue(a % 4 * 16 + b / 16);
      DigitValue(b % 16 * 4 + c / 64);
      DigitValue(c % 64);
      EncodedPlain(data[3..]);
    }
  }

  lemma AhpValuePlain(agentId: bytes, sequence: nat, chainHash: bytes)
    ensures PlainValue(EncodeAhp(agentId, sequence, chainHash))
  {
    hide Encode64, BigEndian;
    EncodedPlain(agentId + BigEndian(sequence, 8) + if |chainHash| <= 16 then chainHash else chainHash[..16]);
  }

  /** What is put into any existing header is parsed out of it again. */
  lemma TracestateRoundTrip(agentId: bytes, sequence: nat, chainHash: bytes, existing: string)
    requires |agentId| == 16 && sequence <= MAX_UINT64 && |chainHash| >= 16
    ensures FirstAhp(Split(Updated(EncodeAhp(agentId, sequence, chainHash), existing)))
         == Some(Link(agentId, sequence, chainHash[..16]))
  {
    hide Split, Others, EncodeAhp, DecodeAhp, PlainValue, Strip, Tidy, Updated, IsAhp;
    var v := EncodeAhp(agentId, sequence, chainHash);
    AhpValuePlain(agentId, sequence, chainHash);
    AhpRoundTrip(agentId, sequence, chainHash);
    UpdatedPieces(v, existing);
    AhpEntryClean(v);
    CleanStrip(AHP + v);
  }

  // -------------------------------------------------------------- any header, any place

  /** The entry decoded is the first that starts with ahp=, wherever it stands; without one there is none. */
  lemma {:induction false} FirstAhpAt(pieces: seq<string>, k: nat)
    requires k <= |pieces| && (forall j :: 0 <= j < k ==> !IsAhp(Strip(pieces[j])))
    requires k < |pieces| ==> IsAhp(Strip(pieces[k]))
    ensures FirstAhp(pieces) == if k == |pieces| then None else DecodeAhp(Strip(pieces[k])[4..])
    decreases k
  {
    hide Strip, IsAhp, DecodeAhp;
    if k > 0 {
      FirstAhpAt(pieces[1..], k - 1);
    }
  }

  predicate Foreign(entries: seq<string>) {
    forall i :: 0 <= i < |entries| ==> Tidy(entries[i]) && !IsAhp(entries[i])
  }

  lemma JoinedPieces(a: seq<string>, e: string, b: seq<string>)
    requires Foreign(a) && Foreign(b) && Tidy(e)
    ensures Split(Join(a + [e] + b)) == a + [e] + b
  {
    hide Split, Join, Tidy;
    SplitJoin(a + [e] + b);
  }

  /** The entry of another participant is found behind any other entries and in front of any others. */
  lemma ParsedAnywhere(a: seq<string>, agentId: bytes, sequence: nat, chainHash: bytes, b: seq<string>)
    requires Foreign(a) && Foreign(b) && |agentId| == 16 && sequence <= MAX_UINT64 && |chainHash| >= 16
    ensures FirstAhp(Split(Join(a + [AHP + EncodeAhp(agentId, sequence, chainHash)] + b)))
         == Some(Link(agentId, sequence, chainHash[..16]))
  {
    hide Split, Join, EncodeAhp, DecodeAhp, PlainValue, Strip, Tidy, IsAhp;
    var v := EncodeAhp(agentId, sequence, chainHash);
    var pieces := a + [AHP + v] + b;
    AhpValuePlain(agentId, sequence, chainHash);
    AhpRoundTrip(agentId, sequence, chainHash);
    AhpEntryClean(v);
    JoinedPieces(a, AHP + v, b);
    CleanStrip(AHP + v);
    forall j | 0 <= j < |a|
      ensures !IsAhp(Strip(pieces[j]))
    {
      CleanStrip(a[j]);
    }
    FirstAhpAt(pieces, |a|);
  }

  /** A header without an ahp entry gives nothing. */
  lemma ParsedNowhere(entries: seq<string>)
    requires Foreign(entries) && entries != []
    ensures FirstAhp(Split(Join(entries))) == None
  {
    hide Split, Join, Strip, Tidy, IsAhp, DecodeAhp;
    SplitJoin(entries);
    forall j | 0 <= j < |entries|
      ensures !IsAhp(Strip(entries[j]))
    {
      CleanStrip(entries[j]);
    }
    FirstAhpAt(entries, |entries|);
  }

  /** An update takes the ahp entry out, wherever it stood, keeps all others in order, and puts the new one in
      front. */
  lemma UpdatedAnywhere(a: seq<string>, v: string, b: seq<string>, w: string)
    requires Foreign(a) && Foreign(b) && PlainValue(v) && PlainValue(w)
    ensures Split(Updated(w, Join(a + [AHP + v] + b))) == [AHP + w] + a + b
  {
    hide Split, Join, PlainValue, Strip, Tidy, IsAhp, Others;
    AhpEntryClean(v);
    JoinedPieces(a, AHP + v, b);
    CleanStrip(AHP + v);
    ForeignOthers(a);
    ForeignOthers(b);
    OthersAppend(a + [AHP + v], b);
    OthersAppend(a, [AHP + v]);
    OneOther(AHP + v);
    UpdatedPieces(w, Join(a + [AHP + v] + b));
    assert a + [] == a && [AHP + w] + (a + b) == [AHP + w] + a + b;
  }

  lemma ForeignOthers(entries: seq<string>)
    requires Foreign(entries)
    ensures Others(entries) == entries
  {
    hide Tidy, IsAhp, Others;
    OthersOfClean(entries);
  }

  lemma OneOther(entry: string)
    requires IsAhp(Strip(entry))
    ensures Others([entry]) == []
  {
    hide Strip, IsAhp;
  }

  lemma {:induction false} OthersAppend(a: seq<string>, b: seq<string>)
    ensures Others(a + b) == Others(a) + Others(b)
  {
    hide Strip, IsAhp;
    if a == [] {
      assert a + b == b;
    } else {
      assert (a + b)[0] == a[0] && (a + b)[1..] == a[1..] + b;
      OthersAppend(a[1..], b);
    }
  }

  predicate AllSpace(s: string) {
    forall i :: 0 <= i < |s| ==> Space(s[i])
  }

  /** Stripping takes off spaces at both ends and nothing else. */
  lemma StripPadded(left: string, entry: string, right: string)
    requires AllSpace(left) && AllSpace(right) && Tidy(entry)
    ensures Strip(left + entry + right) == entry
  {
    hide Space, StripLeft, StripRight;
    StripLeftPadded(left, entry + right);
    assert left + entry + right == left + (entry + right);
    StripRightPadded(entry, right);
  }

  lemma {:induction false} StripLeftPadded(left: string, rest: string)
    requires AllSpace(left) && rest != "" && !Space(rest[0])
    ensures StripLeft(left + rest) == rest
  {
    hide Space;
    if left == "" {
      assert left + rest == rest;
    } else {
      assert (left + rest)[1..] == left[1..] + rest;
      StripLeftPadded(left[1..], rest);
    }
  }

  lemma {:induction false} StripRightPadded(rest: string, right: string)
    requires AllSpace(right) && rest != "" && !Space(rest[|rest| - 1])
    ensures StripRight(rest + right) == rest
  {
    hide Space;
    if right == "" {
      assert rest + right == rest;
    } else {
      assert (rest + right)[..|rest + right| - 1] == rest + right[..|right| - 1];
      StripRightPadded(rest, right[..|right| - 1]);
    }
  }

  // ---------------------------------------------------------------- what the digits are

  /** The alphabet of section 5 of RFC 4648. */
  lemma Alphabet(v: nat)
    requires v < 64
    ensures v < 26 ==> Digit(v) == "ABCDEFGHIJKLMNOPQRSTUVWXYZ"[v]
    ensures 26 <= v < 52 ==> Digit(v) == "abcdefghijklmnopqrstuvwxyz"[v - 26]
    ensures 52 <= v ==> Digit(v) == "0123456789-_"[v - 52]
  {
  }

  /** A group of three bytes, read as one big-endian number, is its four digits read so in base 64; at the end
      the missing bytes are taken as zeros and their digits left out. */
  lemma Groups(data: bytes)
    ensures var text, n := Encode64(data), |data|;
      && |text| == n / 3 * 4 + (if n % 3 == 0 then 0 else n % 3 + 1)
      && (forall i :: 0 <= i < |text| ==> Value(text[i]).Some?)
      && (n >= 3 ==>
            && text[4..] == Encode64(data[3..])
            && 65536 * data[0] as nat + 256 * data[1] as nat + data[2] as nat
               == 262144 * Value(text[0]).value + 4096 * Value(text[1]).value + 64 * Value(text[2]).value
                  + Value(text[3]).value)
      && (n == 2 ==>
            65536 * data[0] as nat + 256 * data[1] as nat
            == 262144 * Value(text[0]).value + 4096 * Value(text[1]).value + 64 * Value(text[2]).value)
      && (n == 1 ==> 65536 * data[0] as nat == 262144 * Value(text[0]).value + 4096 * Value(text[1]).value)
  {
    hide Digit, Value;
    EncodedPlain(data);
    EncodedLength(data);
    if |data| == 1 {
      var a := data[0] as nat;
      DigitValue(a / 4);
      DigitValue(a % 4 * 16);
    } else if |data| == 2 {
      var a, b := data[0] as nat, data[1] as nat;
      DigitValue(a / 4);
      DigitValue(a % 4 * 16 + b / 16);
      DigitValue(b % 16 * 4);
    } else if |data| > 2 {
      var a, b, c := data[0] as nat, data[1] as nat, data[2] as nat;
      DigitValue(a / 4);
      DigitValue(a % 4 * 16 + b / 16);
      DigitValue(b % 16 * 4 + c / 64);
      DigitValue(c % 64);
    }
  }

  lemma {:induction false} EncodedLength(data: bytes)
    ensures |Encode64(data)| == |data| / 3 * 4 + (if |data| % 3 == 0 then 0 else |data| % 3 + 1)
  {
    hide Digit;
    if |data| > 2 {
      EncodedLength(data[3..]);
    }
  }

  /** Most significant byte first. */
  lemma {:induction false} BigEndianReversed(v: nat, n: nat, i: nat)
    requires i < n
    ensures BigEndian(v, n)[i] == LE(v, n)[n - 1 - i]
    decreases n
  {
    if i < n - 1 {
      BigEndianReversed(v / 256, n - 1, i);
    }
  }

  /** What the entry spells: 16 bytes of agent id, 8 of the number, 16 of the hash, in 54 digits. */
  lemma AhpLayout(agentId: bytes, sequence: nat, chainHash: bytes)
    requires |agentId| == 16 && |chainHash| >= 16
    ensures var text := EncodeAhp(agentId, sequence, chainHash);
      |text| == 54 && Decode64(text) == Some(agentId + BigEndian(sequence, 8) + chainHash[..16])
  {
    hide Encode64, Decode64, BigEndian;
    var data := agentId + BigEndian(sequence, 8) + chainHash[..16];
    EncodedLength(data);
    Base64RoundTrip(data);
    assert |chainHash| <= 16 ==> chainHash == chainHash[..16];
  }
}
