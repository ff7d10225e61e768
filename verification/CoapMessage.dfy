/**
 * The message format of sections 3 and 3.1 of RFC 7252: a serialiser and a
 * parser, proved to be inverse to each other.  They are the reference for the
 * repository's own encoders and decoders.
 */
module CoapMessage {
  import opened Bytes

  datatype Opt = Opt(number: nat, value: bytes)

  datatype Message = Message(kind: nat, code: byte, id: nat, token: bytes, options: seq<Opt>, payload: bytes)

  const PAYLOAD_MARKER: byte := 0xff
  const MAX_TOKEN := 8
  const MAX_OPTION := 0xffff
  const MAX_LENGTH := 0xffff + 269

  /** Option numbers ascend and fit 16 bits, lengths fit the extended length field. */
  predicate OptionsOk(os: seq<Opt>, last: nat) {
    os == [] ||
    (last <= os[0].number <= MAX_OPTION && |os[0].value| <= MAX_LENGTH && OptionsOk(os[1..], os[0].number))
  }

  predicate WellFormed(m: Message) {
    && m.kind < 4 && m.id < 0x1_0000 && |m.token| <= MAX_TOKEN
    && OptionsOk(m.options, 0)
  }

  // ---- serialiser ----

  /** The nibble for an option delta or length. */
  function Nibble(n: nat): (r: nat)
    ensures r <= 14
  {
    if n < 13 then n else if n < 269 then 13 else 14
  }

  /** The extension bytes that follow it. */
  function Extension(n: nat): (s: bytes)
    requires n <= MAX_LENGTH
    ensures |s| == (if n < 13 then 0 else if n < 269 then 1 else 2)
  {
    if n < 13 then [] else if n < 269 then [n - 13] else [(n - 269) / 256, (n - 269) % 256]
  }

  function SerializeOption(delta: nat, value: bytes): (s: bytes)
    requires delta <= MAX_LENGTH && |value| <= MAX_LENGTH
  {
    [Nibble(delta) * 16 + Nibble(|value|)] + (Extension(delta) + (Extension(|value|) + value))
  }

  function SerializeOptions(os: seq<Opt>, last: nat): bytes
    requires OptionsOk(os, last)
  {
    if os == [] then []
    else SerializeOption(os[0].number - last, os[0].value) + SerializeOptions(os[1..], os[0].number)
  }

  /** An empty payload is sent without a marker. */
  function SerializePayload(payload: bytes): bytes {
    if payload == [] then [] else [PAYLOAD_MARKER] + payload
  }

  function Header(kind: nat, tkl: nat, code: byte, id: nat): (h: bytes)
    requires kind < 4 && tkl < 16 && id < 0x1_0000
    ensures |h| == 4
  {
    [64 + kind * 16 + tkl, code, id / 256, id % 256]
  }

  function Serialize(m: Message): bytes
    requires WellFormed(m)
  {
    Header(m.kind, |m.token|, m.code, m.id) + m.token + SerializeOptions(m.options, 0) + SerializePayload(m.payload)
  }

  // ---- parser ----

  /** The value a nibble announces, and what follows its extension; 15 is reserved. */
  function ReadExtended(nibble: nat, d: bytes): Result<(nat, bytes)> {
    if nibble < 13 then Ok((nibble, d))
    else if nibble == 13 && |d| >= 1 then Ok((d[0] as nat + 13, d[1..]))
    else if nibble == 14 && |d| >= 2 then Ok(((d[0] as nat) * 256 + d[1] as nat + 269, d[2..]))
    else Err
  }

  datatype Tail = Tail(options: seq<Opt>, payload: bytes)

  function ParseTail(d: bytes, last: nat): Result<Tail>
    decreases |d|
  {
    if d == [] then Ok(Tail([], []))
    else if d[0] == PAYLOAD_MARKER then (if |d| == 1 then Err else Ok(Tail([], d[1..])))
    else
      match ReadOption(d)
      case Err => Err
      case Ok((delta, value, rest)) =>
        if last + delta > MAX_OPTION then Err
        else
          match ParseTail(rest, last + delta)
          case Err => Err
          case Ok(t) => Ok(Tail([Opt(last + delta, value)] + t.options, t.payload))
  }

  /** Delta, value and remainder of the option at the front of `d`. */
  function ReadOption(d: bytes): (r: Result<(nat, bytes, bytes)>)
    requires d != []
    ensures r.Ok? ==> |r.value.2| < |d|
  {
    match ReadExtended(d[0] / 16, d[1..])
    case Err => Err
    case Ok((delta, d1)) =>
      match ReadExtended(d[0] % 16, d1)
      case Err => Err
      case Ok((len, d2)) =>
        if |d2| < len then Err else Ok((delta, d2[..len], d2[len..]))
  }

  function Parse(d: bytes): Result<Message> {
    if |d| < 4 || d[0] / 64 != 1 then Err
    else
      var tkl := d[0] % 16;
      if tkl > MAX_TOKEN || |d| < 4 + tkl then Err
      else
        match ParseTail(d[4 + tkl..], 0)
        case Err => Err
        case Ok(t) =>
          Ok(Message(d[0] / 16 % 4, d[1], d[2] as nat * 256 + d[3] as nat, d[4..4 + tkl], t.options, t.payload))
  }

  // ---- sequences of bytes ----

  lemma Assoc(a: bytes, b: bytes, c: bytes)
    ensures (a + b) + c == a + (b + c)
  {
  }

  lemma Split(d: bytes, a: bytes, b: bytes)
    requires d == a + b
    ensures d[..|a|] == a && d[|a|..] == b
  {
  }

  /** The bytes of one option, laid end to end. */
  lemma Layout(h: bytes, x: bytes, y: bytes, v: bytes, rest: bytes)
    ensures (h + (x + (y + v))) + rest == h + (x + (y + (v + rest)))
  {
    Assoc(h, x + (y + v), rest);
    Assoc(x, y + v, rest);
    Assoc(y, v, rest);
  }

  /** Serialising with one more option in front. */
  lemma Prepend(o: Opt, os: seq<Opt>, last: nat, tail: bytes)
    requires last <= o.number <= MAX_OPTION && |o.value| <= MAX_LENGTH && OptionsOk(os, o.number)
    ensures OptionsOk([o] + os, last)
    ensures SerializeOptions([o] + os, last) + tail
            == SerializeOption(o.number - last, o.value) + (SerializeOptions(os, o.number) + tail)
  {
    assert ([o] + os)[1..] == os;
    Assoc(SerializeOption(o.number - last, o.value), SerializeOptions(os, o.number), tail);
  }

  // ---- parsing undoes serialising ----

  lemma ReadExtension(n: nat, rest: bytes)
    requires n <= MAX_LENGTH
    ensures ReadExtended(Nibble(n), Extension(n) + rest) == Ok((n, rest))
  {
    Split(Extension(n) + rest, Extension(n), rest);
  }

  lemma NibblePair(a: nat, b: nat)
    requires a <= 14 && b <= 14
    ensures (a * 16 + b) / 16 == a && (a * 16 + b) % 16 == b && a * 16 + b < 255
  {
  }

  lemma ReadOptionSteps(d: bytes, delta: nat, d1: bytes, len: nat, d2: bytes)
    requires d != [] && ReadExtended(d[0] / 16, d[1..]) == Ok((delta, d1))
    requires ReadExtended(d[0] % 16, d1) == Ok((len, d2)) && len <= |d2|
    ensures ReadOption(d) == Ok((delta, d2[..len], d2[len..]))
  {
  }

  lemma ReadSerializedOption(d: bytes, delta: nat, value: bytes, rest: bytes)
    requires delta <= MAX_LENGTH && |value| <= MAX_LENGTH && d == SerializeOption(delta, value) + rest
    ensures d != [] && d[0] != PAYLOAD_MARKER && ReadOption(d) == Ok((delta, value, rest))
  {
    var len := |value|;
    NibblePair(Nibble(delta), Nibble(len));
    var h: bytes := [Nibble(delta) * 16 + Nibble(len)];
    Layout(h, Extension(delta), Extension(len), value, rest);
    var d2 := value + rest;
    var d1 := Extension(len) + d2;
    Split(d, h, Extension(delta) + d1);
    assert d[0] == h[0];
    ReadExtension(delta, d1);
    ReadExtension(len, d2);
    ReadOptionSteps(d, delta, d1, len, d2);
    Split(d2, value, rest);
  }

  /** One turn of the parser's loop. */
  lemma ParseTailStep(d: bytes, last: nat, number: nat, value: bytes, rest: bytes)
    requires last <= number <= MAX_OPTION
    requires d != [] && d[0] != PAYLOAD_MARKER && ReadOption(d) == Ok((number - last, value, rest))
    ensures ParseTail(d, last) ==
            match ParseTail(rest, number)
            case Err => Err
            case Ok(t) => Ok(Tail([Opt(number, value)] + t.options, t.payload))
  {
  }

  lemma ParseOption(d: bytes, last: nat, o: Opt, rest: bytes)
    requires last <= o.number <= MAX_OPTION && |o.value| <= MAX_LENGTH
    requires d == SerializeOption(o.number - last, o.value) + rest
    ensures ParseTail(d, last) ==
            match ParseTail(rest, o.number)
            case Err => Err
            case Ok(t) => Ok(Tail([o] + t.options, t.payload))
  {
    ReadSerializedOption(d, o.number - last, o.value, rest);
    ParseTailStep(d, last, o.number, o.value, rest);
  }

  lemma ParsePayload(payload: bytes, last: nat)
    ensures ParseTail(SerializePayload(payload), last) == Ok(Tail([], payload))
  {
    assert payload != [] ==> SerializePayload(payload)[1..] == payload;
  }

  lemma {:induction false} ParseSerializedTail(os: seq<Opt>, payload: bytes, last: nat)
    requires OptionsOk(os, last)
    ensures ParseTail(SerializeOptions(os, last) + SerializePayload(payload), last) == Ok(Tail(os, payload))
    decreases |os|
  {
    var tail := SerializePayload(payload);
    if os == [] {
      ParsePayload(payload, last);
      assert SerializeOptions(os, last) + tail == tail;
    } else {
      var o := os[0];
      var rest := SerializeOptions(os[1..], o.number) + tail;
      Prepend(o, os[1..], last, tail);
      assert [o] + os[1..] == os;
      ParseOption(SerializeOptions(os, last) + tail, last, o, rest);
      ParseSerializedTail(os[1..], payload, o.number);
    }
  }

  /** Every well-formed message survives the wire. */
  lemma ParseSerialize(m: Message)
    requires WellFormed(m)
    ensures Parse(Serialize(m)) == Ok(m)
  {
    ParseSerialized(m, Serialize(m));
  }

  lemma ParseSerialized(m: Message, d: bytes)
    requires WellFormed(m) && d == Serialize(m)
    ensures Parse(d) == Ok(m)
  {
    var h := Header(m.kind, |m.token|, m.code, m.id);
    var tail := SerializeOptions(m.options, 0) + SerializePayload(m.payload);
    SerializedShape(m, h, tail);
    HeaderFields(m.kind, |m.token|, m.code, m.id);
    ParseSerializedTail(m.options, m.payload, 0);
    ParseParts(d, h, tail, m);
  }

  lemma SerializedShape(m: Message, h: bytes, tail: bytes)
    requires WellFormed(m) && h == Header(m.kind, |m.token|, m.code, m.id)
    requires tail == SerializeOptions(m.options, 0) + SerializePayload(m.payload)
    ensures Serialize(m) == h + (m.token + tail)
  {
    Assoc(h + m.token, SerializeOptions(m.options, 0), SerializePayload(m.payload));
    Assoc(h, m.token, tail);
  }

  lemma HeaderFields(kind: nat, tkl: nat, code: byte, id: nat)
    requires kind < 4 && tkl < 16 && id < 0x1_0000
    ensures var h := Header(kind, tkl, code, id);
            && h[0] / 64 == 1 && h[0] / 16 % 4 == kind && h[0] % 16 == tkl
            && h[1] == code && h[2] as nat * 256 + h[3] as nat == id
  {
  }

  /** Parsing splits at the header and the token. */
  lemma ParseParts(d: bytes, h: bytes, tail: bytes, m: Message)
    requires d == h + (m.token + tail) && |h| == 4 && h[0] / 64 == 1 && h[0] % 16 == |m.token| <= MAX_TOKEN
    requires h[0] / 16 % 4 == m.kind && h[1] == m.code && h[2] as nat * 256 + h[3] as nat == m.id
    ensures ParseTail(tail, 0) == Ok(Tail(m.options, m.payload)) ==> Parse(d) == Ok(m)
  {
    Split(d, h, m.token + tail);
    Split(m.token + tail, m.token, tail);
    assert d[4 + |m.token|..] == d[4..][|m.token|..];
    assert d[4..4 + |m.token|] == d[4..][..|m.token|];
  }

  // ---- serialising undoes parsing ----

  lemma ExtensionRead(nibble: nat, d: bytes)
    requires nibble < 16 && ReadExtended(nibble, d).Ok?
    ensures var (n, rest) := ReadExtended(nibble, d).value;
            n <= MAX_LENGTH && Nibble(n) == nibble && d == Extension(n) + rest
  {
    if nibble == 14 {
      var x := d[0] as nat * 256 + d[1] as nat;
      assert x / 256 == d[0] && x % 256 == d[1];
      assert d == [d[0], d[1]] + d[2..];
    }
  }

  lemma OptionRead(d: bytes)
    requires d != [] && ReadOption(d).Ok?
    ensures var (delta, value, rest) := ReadOption(d).value;
            delta <= MAX_LENGTH && |value| <= MAX_LENGTH && d == SerializeOption(delta, value) + rest
  {
    ExtensionRead(d[0] / 16, d[1..]);
    var (delta, d1) := ReadExtended(d[0] / 16, d[1..]).value;
    ExtensionRead(d[0] % 16, d1);
    var (len, d2) := ReadExtended(d[0] % 16, d1).value;
    Rejoin(d, Extension(delta), d1, Extension(len), d2, len);
  }

  lemma Rejoin(d: bytes, x: bytes, d1: bytes, y: bytes, d2: bytes, len: nat)
    requires d != [] && d[1..] == x + d1 && d1 == y + d2 && len <= |d2|
    ensures d == ([d[0]] + (x + (y + d2[..len]))) + d2[len..]
  {
    Layout([d[0]], x, y, d2[..len], d2[len..]);
    assert d2 == d2[..len] + d2[len..];
    assert d == [d[0]] + d[1..];
  }

  lemma {:induction false} SerializeParsedTail(d: bytes, last: nat)
    requires ParseTail(d, last).Ok?
    ensures var t := ParseTail(d, last).value;
            OptionsOk(t.options, last) && d == SerializeOptions(t.options, last) + SerializePayload(t.payload)
    decreases |d|
  {
    if d == [] {
    } else if d[0] == PAYLOAD_MARKER {
      assert d == [d[0]] + d[1..];
    } else {
      var (delta, value, rest) := ReadOption(d).value;
      var o := Opt(last + delta, value);
      ParseTailStep(d, last, o.number, value, rest);
      SerializeParsedTail(rest, o.number);
      var t := ParseTail(rest, o.number).value;
      OptionRead(d);
      Prepend(o, t.options, last, SerializePayload(t.payload));
    }
  }

  /** The encoding is canonical: whatever parses is the serialisation of the result. */
  lemma SerializeParse(d: bytes)
    requires Parse(d).Ok?
    ensures WellFormed(Parse(d).value) && Serialize(Parse(d).value) == d
  {
    var tkl := d[0] % 16;
    SerializeParsedTail(d[4 + tkl..], 0);
    HeaderRead(d[0], d[1], d[2], d[3]);
    Regroup(d, tkl, Parse(d).value);
  }

  lemma Regroup(d: bytes, tkl: nat, m: Message)
    requires WellFormed(m) && 4 + tkl <= |d| && tkl == |m.token|
    requires [d[0], d[1], d[2], d[3]] == Header(m.kind, tkl, m.code, m.id) && d[4..4 + tkl] == m.token
    requires d[4 + tkl..] == SerializeOptions(m.options, 0) + SerializePayload(m.payload)
    ensures d == Serialize(m)
  {
    assert d[..4] == [d[0], d[1], d[2], d[3]];
    assert d == d[..4] + d[4..4 + tkl] + d[4 + tkl..];
    Assoc(d[..4] + d[4..4 + tkl], SerializeOptions(m.options, 0), SerializePayload(m.payload));
  }

  lemma HeaderRead(a: byte, code: byte, hi: byte, lo: byte)
    requires a / 64 == 1
    ensures hi as nat * 256 + lo as nat < 0x1_0000
    ensures Header(a / 16 % 4, a % 16, code, hi as nat * 256 + lo as nat) == [a, code, hi, lo]
  {
    var x := hi as nat * 256 + lo as nat;
    assert x / 256 == hi && x % 256 == lo;
  }
}
