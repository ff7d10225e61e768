/**
 * The Python host tools: the request encoder `build_request`
 * (scripts/coap_latency.py) and the response decoder `parse_response`
 * (scripts/coap_cli.py), measured against the message format of RFC 7252.
 */
module CoapClient {
  import opened Bytes
  import opened CoapMessage

  const URI_PATH := 11

  /** Python's `|` on non-negative integers. */
  function BitOr(a: nat, b: nat): nat {
    if a == 0 then b
    else if b == 0 then a
    else 2 * BitOr(a / 2, b / 2) + if a % 2 == 1 || b % 2 == 1 then 1 else 0
  }

  /**
   * `build_request`: `segments` is what `split("/")` yields, encoded as UTF-8.
   * `None` is the exception Python raises for a value that does not fit a byte
   * or the 16-bit message id.
   */
  method BuildRequest(code: byte, segments: seq<bytes>, mtype: nat, mid: nat, token: bytes, payload: Option<bytes>)
    returns (r: Option<bytes>)
    ensures r == RequestWire(code, segments, mtype, mid, token, payload)
  {
    var first := FirstByte(mtype, |token|);
    if first > 255 || mid > 0xffff {
      return None;
    }
    var out: bytes := [first, code];
    out := out + [mid / 256, mid % 256];
    out := out + token;
    var last := 0;
    var i := 0;
    ghost var front := out;
    while i < |segments|
      invariant 0 <= i <= |segments| && (last == 0 || last == URI_PATH)
      invariant Glue(front, PathWire(segments, 0)) == Glue(out, PathWire(segments[i..], last))
    {
      var b := segments[i];
      assert segments[i..][0] == b && segments[i..][1..] == segments[i + 1..];
      i := i + 1;
      if b == [] {
        continue;
      }
      var head := BitOr((URI_PATH - last) * 16, |b|);
      if head > 255 {
        return None;
      }
      ghost var more := PathWire(segments[i..], URI_PATH);
      if more.Some? {
        assert out + ([head] + b + more.value) == (out + [head] + b) + more.value;
      }
      out := out + [head];
      out := out + b;
      last := URI_PATH;
    }
    assert segments[i..] == [];
    assert out + [] == out;
    assert Some(out) == Glue(front, PathWire(segments, 0));
    if payload.Some? {
      Assoc(out, [PAYLOAD_MARKER], payload.value);
      out := out + [PAYLOAD_MARKER];
      out := out + payload.value;
    } else {
      assert out == out + [];
    }
    return Some(out);
  }

  function FirstByte(mtype: nat, tkl: nat): nat {
    BitOr(BitOr(64, mtype * 16), tkl)
  }

  /** The bytes of the path segments; every segment after the first has delta 0. */
  function PathWire(segments: seq<bytes>, last: nat): Option<bytes>
    requires last <= URI_PATH
  {
    if segments == [] then Some([])
    else if segments[0] == [] then PathWire(segments[1..], last)
    else
      var head := BitOr((URI_PATH - last) * 16, |segments[0]|);
      var more := PathWire(segments[1..], URI_PATH);
      if head > 255 || more.None? then None else Some([head] + segments[0] + more.value)
  }

  function Glue(front: bytes, back: Option<bytes>): Option<bytes> {
    if back.None? then None else Some(front + back.value)
  }

  function RequestWire(code: byte, segments: seq<bytes>, mtype: nat, mid: nat, token: bytes, payload: Option<bytes>)
    : Option<bytes>
  {
    var first := FirstByte(mtype, |token|);
    var path := PathWire(segments, 0);
    if first > 255 || mid > 0xffff || path.None? then None
    else Some([first, code] + [mid / 256, mid % 256] + token + path.value
              + if payload.Some? then [PAYLOAD_MARKER] + payload.value else [])
  }

  // ---- what the request should mean ----

  function PathOptions(segments: seq<bytes>): seq<Opt> {
    if segments == [] then []
    else if segments[0] == [] then PathOptions(segments[1..])
    else [Opt(URI_PATH, segments[0])] + PathOptions(segments[1..])
  }

  function Intended(code: byte, segments: seq<bytes>, mtype: nat, mid: nat, token: bytes, payload: Option<bytes>)
    : Message
  {
    Message(mtype, code, mid, token, PathOptions(segments), if payload.Some? then payload.value else [])
  }

  /** The calls for which the encoder is right: what a caller can check beforehand. */
  predicate Encodable(segments: seq<bytes>, mtype: nat, mid: nat, token: bytes, payload: Option<bytes>) {
    && mtype < 4 && mid < 0x1_0000 && |token| <= MAX_TOKEN && payload != Some([])
    && forall b | b in segments :: |b| <= 12
  }

  lemma OrDouble(a: nat, b: nat)
    ensures BitOr(2 * a, b) == 2 * BitOr(a, b / 2) + b % 2
  {
  }

  lemma {:induction false} OrNibbles(a: nat, b: nat)
    requires b < 16
    ensures BitOr(a * 16, b) == a * 16 + b
  {
    var a2 := 2 * a;
    var a4 := 2 * a2;
    var a8 := 2 * a4;
    var b1 := b / 2;
    var b2 := b1 / 2;
    var b3 := b2 / 2;
    assert b3 / 2 == 0 && a * 16 == 2 * a8;
    OrDouble(a8, b);
    OrDouble(a4, b1);
    OrDouble(a2, b2);
    OrDouble(a, b3);
    assert BitOr(a, 0) == a;
  }

  lemma {:induction false} OrShifted(a: nat, b: nat)
    ensures BitOr(16 * a, 16 * b) == 16 * BitOr(a, b)
  {
    OrEven(8 * a, 8 * b);
    OrEven(4 * a, 4 * b);
    OrEven(2 * a, 2 * b);
    OrEven(a, b);
  }

  lemma {:induction false} OrEven(a: nat, b: nat)
    ensures BitOr(2 * a, 2 * b) == 2 * BitOr(a, b)
  {
    OrDouble(a, 2 * b);
  }

  lemma {:induction false} FirstByteFields(mtype: nat, tkl: nat)
    requires mtype < 4 && tkl < 16
    ensures FirstByte(mtype, tkl) == 64 + mtype * 16 + tkl
  {
    OrShifted(4, mtype);
    OrDouble(2, mtype);
    OrDouble(1, mtype / 2);
    assert mtype / 2 / 2 == 0;
    OrNibbles(4 + mtype, tkl);
  }

  lemma {:induction false} ShortSegment(b: bytes, last: nat)
    requires |b| <= 12 && (last == 0 || last == URI_PATH)
    ensures var head := BitOr((URI_PATH - last) * 16, |b|);
            head <= 255 && SerializeOption(URI_PATH - last, b) == [head] + b
  {
    OrNibbles(URI_PATH - last, |b|);
    assert Extension(|b|) + b == b && Extension(URI_PATH - last) + b == b;
  }

  /** Segments of up to twelve bytes are encoded as RFC 7252 says. */
  lemma {:induction false} ShortPath(segments: seq<bytes>, last: nat)
    requires last == 0 || last == URI_PATH
    requires forall b | b in segments :: |b| <= 12
    ensures OptionsOk(PathOptions(segments), last)
    ensures PathWire(segments, last) == Some(SerializeOptions(PathOptions(segments), last))
  {
    if segments != [] {
      if segments[0] == [] {
        ShortPath(segments[1..], last);
      } else {
        ShortPath(segments[1..], URI_PATH);
        ShortSegment(segments[0], last);
        assert PathOptions(segments)[1..] == PathOptions(segments[1..]);
      }
    }
  }

  /** How many bytes longer the correct encoding of the path is. */
  function Shortfall(segments: seq<bytes>): nat {
    if segments == [] then 0
    else (if |segments[0]| < 13 then 0 else if |segments[0]| < 269 then 1 else 2) + Shortfall(segments[1..])
  }

  lemma {:induction false} PathLength(segments: seq<bytes>, last: nat)
    requires last == 0 || last == URI_PATH
    requires OptionsOk(PathOptions(segments), last) && PathWire(segments, last).Some?
    ensures |SerializeOptions(PathOptions(segments), last)| == |PathWire(segments, last).value| + Shortfall(segments)
  {
    if segments != [] {
      if segments[0] == [] {
        PathLength(segments[1..], last);
      } else {
        assert PathOptions(segments)[1..] == PathOptions(segments[1..]);
        PathLength(segments[1..], URI_PATH);
      }
    }
  }

  lemma {:induction false} ShortfallMeans(segments: seq<bytes>)
    ensures Shortfall(segments) == 0 <==> forall b | b in segments :: |b| <= 12
  {
    if segments != [] {
      ShortfallMeans(segments[1..]);
      assert forall b :: b in segments <==> b == segments[0] || b in segments[1..];
    }
  }

  lemma {:induction false} LastOptionByte(segments: seq<bytes>, last: nat)
    requires last <= URI_PATH && OptionsOk(PathOptions(segments), last) && PathOptions(segments) != []
    requires forall b | b in segments :: PAYLOAD_MARKER !in b
    ensures var s := SerializeOptions(PathOptions(segments), last); s != [] && s[|s| - 1] != PAYLOAD_MARKER
  {
    if segments[0] == [] {
      LastOptionByte(segments[1..], last);
    } else {
      assert PathOptions(segments)[1..] == PathOptions(segments[1..]);
      var b := segments[0];
      var f := SerializeOption(URI_PATH - last, b);
      assert f[|f| - 1] == b[|b| - 1];
      var g := SerializeOptions(PathOptions(segments[1..]), URI_PATH);
      assert SerializeOptions(PathOptions(segments), last) == f + g;
      if PathOptions(segments[1..]) != [] {
        LastOptionByte(segments[1..], URI_PATH);
        assert (f + g)[|f + g| - 1] == g[|g| - 1];
      } else {
        assert f + g == f;
        assert b in segments && b[|b| - 1] in b;
      }
    }
  }

  /** Within its limits the encoder produces the serialisation of the intended message. */
  lemma EncodesIntended(code: byte, segments: seq<bytes>, mtype: nat, mid: nat, token: bytes, payload: Option<bytes>)
    requires Encodable(segments, mtype, mid, token, payload)
    ensures var m := Intended(code, segments, mtype, mid, token, payload);
            WellFormed(m) && RequestWire(code, segments, mtype, mid, token, payload) == Some(Serialize(m))
  {
    FirstByteFields(mtype, |token|);
    ShortPath(segments, 0);
    var m := Intended(code, segments, mtype, mid, token, payload);
    assert Header(m.kind, |m.token|, m.code, m.id) == [FirstByte(mtype, |token|), code] + [mid / 256, mid % 256];
  }

  lemma WireLength(code: byte, segments: seq<bytes>, mtype: nat, mid: nat, token: bytes, payload: Option<bytes>)
    requires var m := Intended(code, segments, mtype, mid, token, payload);
             WellFormed(m) && RequestWire(code, segments, mtype, mid, token, payload) == Some(Serialize(m))
    ensures Shortfall(segments) == if payload == Some([]) then 1 else 0
  {
    var m := Intended(code, segments, mtype, mid, token, payload);
    assert PathWire(segments, 0).Some?;
    PathLength(segments, 0);
    assert |RequestWire(code, segments, mtype, mid, token, payload).value|
        == 4 + |token| + |PathWire(segments, 0).value| + if payload.Some? then 1 + |payload.value| else 0;
  }

  /**
   * Round trip, exactly: a receiver following RFC 7252 recovers code, type, id,
   * token, path and payload from the encoder's output if and only if the call
   * stays inside the encoder's limits.
   */
  lemma RequestRoundTrip(code: byte, segments: seq<bytes>, mtype: nat, mid: nat, token: bytes, payload: Option<bytes>)
    requires forall b | b in segments :: PAYLOAD_MARKER !in b   // UTF-8 has no such byte
    ensures var r := RequestWire(code, segments, mtype, mid, token, payload);
            (r.Some? && Parse(r.value) == Ok(Intended(code, segments, mtype, mid, token, payload)))
            <==> Encodable(segments, mtype, mid, token, payload)
  {
    var m := Intended(code, segments, mtype, mid, token, payload);
    var r := RequestWire(code, segments, mtype, mid, token, payload);
    if Encodable(segments, mtype, mid, token, payload) {
      EncodesIntended(code, segments, mtype, mid, token, payload);
      ParseSerialize(m);
    }
    if r.Some? && Parse(r.value) == Ok(m) {
      SerializeParse(r.value);
      WireLength(code, segments, mtype, mid, token, payload);
      ShortfallMeans(segments);
      if payload == Some([]) {
        NoEmptyPayload(code, segments, mtype, mid, token);
      }
    }
  }

  /** An explicit empty payload leaves a marker that the intended message cannot end in. */
  lemma NoEmptyPayload(code: byte, segments: seq<bytes>, mtype: nat, mid: nat, token: bytes)
    requires forall b | b in segments :: PAYLOAD_MARKER !in b
    requires WellFormed(Intended(code, segments, mtype, mid, token, Some([])))
    ensures RequestWire(code, segments, mtype, mid, token, Some([]))
            != Some(Serialize(Intended(code, segments, mtype, mid, token, Some([]))))
  {
    var m := Intended(code, segments, mtype, mid, token, Some([]));
    var s := Serialize(m);
    var r := RequestWire(code, segments, mtype, mid, token, Some([]));
    if r.Some? {
      assert r.value[|r.value| - 1] == PAYLOAD_MARKER;
      if m.options == [] {
        PathLength(segments, 0);
        NoSegments(segments);
        assert |r.value| == |s| + 1;
      } else {
        LastOptionByte(segments, 0);
        var options := SerializeOptions(m.options, 0);
        assert s[|s| - 1] == options[|options| - 1];
      }
    }
  }

  lemma {:induction false} NoSegments(segments: seq<bytes>)
    requires PathOptions(segments) == []
    ensures Shortfall(segments) == 0
  {
    if segments != [] { NoSegments(segments[1..]); }
  }

  function Pow2(k: nat): (r: nat)
    ensures r > 0
  {
    if k == 0 then 1 else 2 * Pow2(k - 1)
  }

  lemma {:induction false} OrBelow(a: nat, b: nat, k: nat)
    ensures BitOr(a, b) < Pow2(k) <==> a < Pow2(k) && b < Pow2(k)
    decreases a
  {
    if a > 0 && b > 0 { OrBelow(a / 2, b / 2, if k > 0 then k - 1 else 0); }
  }

  lemma OrIsByte(a: nat, b: nat)
    ensures BitOr(a, b) <= 255 <==> a <= 255 && b <= 255
  {
    OrBelow(a, b, 8);
    assert Pow2(8) == 256;
  }

  lemma {:induction false} PathFails(segments: seq<bytes>, last: nat)
    requires last <= URI_PATH
    ensures PathWire(segments, last).None? <==> exists b :: b in segments && |b| > 255
    decreases |segments|
  {
    if segments != [] {
      assert forall b :: b in segments <==> b == segments[0] || b in segments[1..];
      OrIsByte((URI_PATH - last) * 16, |segments[0]|);
      PathFails(segments[1..], if segments[0] == [] then last else URI_PATH);
    }
  }

  /**
   * The encoder raises exactly when a value does not fit its byte or the id its
   * 16 bits; type, token and segment lengths between the protocol's limits and
   * these are encoded wrongly without notice (see `RequestRoundTrip`).
   */
  lemma RaisesExactly(code: byte, segments: seq<bytes>, mtype: nat, mid: nat, token: bytes, payload: Option<bytes>)
    ensures RequestWire(code, segments, mtype, mid, token, payload).None?
            <==> mtype > 15 || |token| > 255 || mid > 0xffff || exists b :: b in segments && |b| > 255
  {
    OrIsByte(64, mtype * 16);
    OrIsByte(BitOr(64, mtype * 16), |token|);
    PathFails(segments, 0);
  }

  // ---- parse_response ----

  datatype Response = Response(code: string, name: string, payload: bytes)

  function Digit(n: nat): char
    requires n < 10
  {
    "0123456789"[n]
  }

  /** The "C.DD" notation. */
  function CodeText(code: byte): string {
    [Digit(code / 32), '.', Digit(code % 32 / 10), Digit(code % 32 % 10)]
  }

  const CODE_NAMES: map<string, string> := map[
    "2.01" := "Created", "2.02" := "Deleted", "2.03" := "Valid", "2.04" := "Changed", "2.05" := "Content",
    "4.00" := "Bad Request", "4.01" := "Unauthorized", "4.04" := "Not Found", "4.05" := "Method Not Allowed",
    "5.00" := "Internal Server Error"]

  function CodeName(code: string): string {
    if code in CODE_NAMES then CODE_NAMES[code] else ""
  }

  /** `data.find(b"\xff", start)`. */
  function FindMarker(data: bytes, start: nat): (r: Option<nat>)
    ensures r.Some? ==> start <= r.value < |data| && data[r.value] == PAYLOAD_MARKER
    ensures r.Some? ==> forall k :: start <= k < r.value ==> data[k] != PAYLOAD_MARKER
    ensures r.None? ==> forall k :: start <= k < |data| ==> data[k] != PAYLOAD_MARKER
    decreases |data| - start
  {
    if start >= |data| then None
    else if data[start] == PAYLOAD_MARKER then Some(start)
    else FindMarker(data, start + 1)
  }

  function ParseResponse(data: bytes): Response {
    if |data| < 4 then Response("(short)", "", [])
    else
      var code := CodeText(data[1]);
      var marker := FindMarker(data, 4 + data[0] % 16);
      Response(code,
               CodeName(code),
               if marker.Some? then data[marker.value + 1..] else [])
  }

  /** The notation tells all codes apart. */
  lemma CodeTextInjective(a: byte, b: byte)
    requires CodeText(a) == CodeText(b)
    ensures a == b
  {
    DigitInjective(a / 32, b / 32);
    DigitInjective(a % 32 / 10, b % 32 / 10);
    DigitInjective(a % 32 % 10, b % 32 % 10);
    assert CodeText(a)[0] == CodeText(b)[0] && CodeText(a)[2] == CodeText(b)[2] && CodeText(a)[3] == CodeText(b)[3];
  }

  lemma DigitInjective(m: nat, n: nat)
    requires m < 10 && n < 10
    ensures Digit(m) == Digit(n) ==> m == n
  {
  }

  /** A stray marker byte among the options, other than as the very last byte of a message without payload. */
  predicate MarkerInOptions(options: bytes, payload: bytes) {
    exists k :: 0 <= k < |options| && options[k] == PAYLOAD_MARKER && (payload != [] || k < |options| - 1)
  }

  /**
   * The decoder skips options by searching for the marker.  On the
   * serialisation of any message it reports the right code, and it reports the
   * right payload if and only if no option byte looks like a marker; tokens
   * may contain any byte.
   */
  lemma ResponseRoundTrip(m: Message)
    requires WellFormed(m)
    ensures ParseResponse(Serialize(m)).code == CodeText(m.code)
    ensures ParseResponse(Serialize(m)).payload == m.payload
            <==> !MarkerInOptions(SerializeOptions(m.options, 0), m.payload)
  {
    var d := Serialize(m);
    var h := Header(m.kind, |m.token|, m.code, m.id);
    var options, tail := SerializeOptions(m.options, 0), SerializePayload(m.payload);
    HeaderFields(m.kind, |m.token|, m.code, m.id);
    assert d[0] == h[0] && d[1] == h[1];
    assert d == (h + m.token) + options + tail;
    MarkerSearch(d, h + m.token, options, m.payload);
  }

  lemma MarkerSearch(d: bytes, front: bytes, options: bytes, payload: bytes)
    requires d == front + options + SerializePayload(payload)
    ensures var marker := FindMarker(d, |front|);
            (if marker.Some? then d[marker.value + 1..] else []) == payload <==> !MarkerInOptions(options, payload)
  {
    var n := |front| + |options|;
    var marker := FindMarker(d, |front|);
    if marker.Some? && marker.value < n {
      EarlyMarker(d, front, options, payload, marker.value - |front|);
    } else {
      LateMarker(d, front, options, payload);
    }
  }

  /** The search stops inside the options. */
  lemma EarlyMarker(d: bytes, front: bytes, options: bytes, payload: bytes, k: nat)
    requires d == front + options + SerializePayload(payload)
    requires k < |options| && FindMarker(d, |front|) == Some(|front| + k)
    ensures d[|front| + k + 1..] == payload <==> !MarkerInOptions(options, payload)
  {
    assert options[k] == d[|front| + k] == PAYLOAD_MARKER;
    assert |d[|front| + k + 1..]| == |options| - k - 1 + |SerializePayload(payload)|;
    forall j | 0 <= j < k ensures options[j] != PAYLOAD_MARKER {
      assert d[|front| + j] == options[j];
    }
  }

  /** The search passes the options. */
  lemma LateMarker(d: bytes, front: bytes, options: bytes, payload: bytes)
    requires d == front + options + SerializePayload(payload)
    requires var r := FindMarker(d, |front|); r.Some? ==> r.value >= |front| + |options|
    ensures var r := FindMarker(d, |front|);
            !MarkerInOptions(options, payload) && (if r.Some? then d[r.value + 1..] else []) == payload
  {
    var n := |front| + |options|;
    forall j | 0 <= j < |options| ensures options[j] != PAYLOAD_MARKER {
      assert d[|front| + j] == options[j];
    }
    if payload != [] {
      assert d[n] == PAYLOAD_MARKER;
      assert d[n + 1..] == payload;
    }
  }

  /** The board's responses carry no options, so theirs are always read back. */
  lemma OptionFreeResponse(m: Message)
    requires WellFormed(m) && m.options == []
    ensures ParseResponse(Serialize(m)).code == CodeText(m.code)
    ensures ParseResponse(Serialize(m)).payload == m.payload
  {
    ResponseRoundTrip(m);
  }
}
