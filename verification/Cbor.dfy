/**
 * `cbor_item_len` (src/edhoc_oscore.c) against the definite-length data items
 * of section 3 of RFC 8949.
 */
module Cbor {
  import opened Bytes

  /** Length of the leading CBOR data item, from its first three bytes (350-386). */
  function CborItemLen(p: bytes): (r: nat)
    ensures r <= 3 + 0xffff
    ensures r == 0 <==> p == []
  {
    if p == [] then 0
    else
      var major := p[0] / 32;
      var ai := p[0] % 32;
      var hdr: nat := if ai == 24 then 2 else if ai == 25 then 3 else if ai == 26 then 5 else if ai == 27 then 9 else 1;
      var payload: nat :=
        if major == 2 || major == 3 then
          if ai < 24 then ai
          else if ai == 24 && |p| >= 2 then p[1]
          else if ai == 25 && |p| >= 3 then (p[1] as int) * 256 + p[2] as int
          else 0
        else 0;
      hdr + payload
  }

  // ---- the reference: data items and their encoding ----

  /** How the argument of a head is carried: in the initial byte, or in 1, 2, 4 or 8 more. */
  datatype Width = Direct | One | Two | Four | Eight

  function Extra(w: Width): nat {
    match w case Direct => 0 case One => 1 case Two => 2 case Four => 4 case Eight => 8
  }

  predicate Fits(w: Width, n: nat) {
    match w
    case Direct => n < 24
    case One => n < 0x100
    case Two => n < 0x1_0000
    case Four => n < 0x1_0000_0000
    case Eight => n < 0x1_0000_0000_0000_0000
  }

  function BigEndian(n: nat, k: nat): (s: bytes)
    ensures |s| == k
  {
    if k == 0 then [] else BigEndian(n / 256, k - 1) + [n % 256]
  }

  type Major = m: nat | m < 8

  function Head(major: Major, w: Width, n: nat): (s: bytes)
    requires Fits(w, n)
    ensures |s| == 1 + Extra(w)
  {
    var ai := match w case Direct => n case One => 24 case Two => 25 case Four => 26 case Eight => 27;
    [major * 32 + ai] + BigEndian(n, Extra(w))
  }

  datatype Item =
    | Int(negative: bool, w: Width, n: nat)
    | Str(text: bool, w: Width, content: bytes)
    | List(w: Width, items: seq<Item>)
    | Table(w: Width, flat: seq<Item>)
    | Tagged(w: Width, n: nat, item: Item)
    | Simple(w: Width, n: nat)

  /** A table lists its keys and values alternately. */
  predicate WellFormed(it: Item) {
    match it
    case Int(_, w, n) => Fits(w, n)
    case Str(_, w, content) => Fits(w, |content|)
    case List(w, items) => Fits(w, |items|) && forall x | x in items :: WellFormed(x)
    case Table(w, flat) => |flat| % 2 == 0 && Fits(w, |flat| / 2) && forall x | x in flat :: WellFormed(x)
    case Tagged(w, n, item) => Fits(w, n) && WellFormed(item)
    case Simple(w, n) => Fits(w, n)
  }

  function Encode(it: Item): (s: bytes)
    requires WellFormed(it)
    ensures |s| >= 1
    decreases it, 0
  {
    match it
    case Int(negative, w, n) => Head(if negative then 1 else 0, w, n)
    case Str(text, w, content) => Head(if text then 3 else 2, w, |content|) + content
    case List(w, items) => Head(4, w, |items|) + EncodeAll(items)
    case Table(w, flat) => Head(5, w, |flat| / 2) + EncodeAll(flat)
    case Tagged(w, n, item) => Head(6, w, n) + Encode(item)
    case Simple(w, n) => Head(7, w, n)
  }

  function EncodeAll(items: seq<Item>): (s: bytes)
    requires forall x | x in items :: WellFormed(x)
    ensures |s| >= |items|
    decreases items, 1
  {
    if items == [] then [] else Encode(items[0]) + EncodeAll(items[1..])
  }

  /** The items whose length the first three bytes reveal. */
  predicate LengthInFirstBytes(it: Item) {
    match it
    case Int(_, _, _) => true
    case Simple(_, _) => true
    case Str(_, w, content) => Extra(w) <= 2 || content == []
    case List(_, items) => items == []
    case Table(_, flat) => flat == []
    case Tagged(_, _, _) => false
  }

  /**
   * Exactness: whatever follows the item, the computed length is the item's own
   * length for integers and simple values of every width and for strings with a
   * direct, one-byte or two-byte length; and for no other non-empty item.
   */
  lemma ItemLenExact(it: Item, rest: bytes)
    requires WellFormed(it)
    ensures CborItemLen(Encode(it) + rest) == |Encode(it)| <==> LengthInFirstBytes(it)
  {
    var major: Major, n, body := Parts(it);
    HeadLen(major, it.w, n, body + rest);
    assert Encode(it) + rest == Head(major, it.w, n) + (body + rest);
  }

  /** An item is a head followed by a body, which is empty or as long as the head says. */
  lemma Parts(it: Item) returns (major: Major, n: nat, body: bytes)
    requires WellFormed(it)
    ensures Fits(it.w, n) && Encode(it) == Head(major, it.w, n) + body
    ensures match it
            case Str(_, _, content) => major in {2, 3} && n == |body| == |content|
            case List(_, items) => major == 4 && (items == [] <==> body == [])
            case Table(_, flat) => major == 5 && (flat == [] <==> body == [])
            case Tagged(_, _, _) => major == 6 && body != []
            case _ => major in {0, 1, 7} && body == []
  {
    match it
    case Int(negative, w, m) => major, n, body := if negative then 1 else 0, m, [];
    case Str(text, w, content) => major, n, body := if text then 3 else 2, |content|, content;
    case List(w, items) => major, n, body := 4, |items|, EncodeAll(items);
    case Table(w, flat) => major, n, body := 5, |flat| / 2, EncodeAll(flat);
    case Tagged(w, m, item) => major, n, body := 6, m, Encode(item);
    case Simple(w, m) => major, n, body := 7, m, [];
  }

  lemma HeadLen(major: Major, w: Width, n: nat, rest: bytes)
    requires Fits(w, n)
    ensures CborItemLen(Head(major, w, n) + rest)
            == 1 + Extra(w) + if major in {2, 3} && Extra(w) <= 2 then n else 0
  {
    var h := Head(major, w, n);
    var p := h + rest;
    assert p[0] == h[0];
    if w.One? {
      BigEndianOne(n);
      assert p[1] == h[1] == n;
    } else if w.Two? {
      BigEndianShort(n);
      assert p[1] == h[1] == n / 256;
      assert p[2] == h[2] == n % 256;
    }
  }

  lemma BigEndianShort(n: nat)
    requires n < 0x1_0000
    ensures BigEndian(n, 2) == [n / 256, n % 256]
  {
    var high := n / 256;
    BigEndianOne(high);
    assert BigEndian(n, 2) == BigEndian(high, 1) + [n % 256];
  }

  lemma BigEndianOne(n: nat)
    requires n < 256
    ensures BigEndian(n, 1) == [n]
  {
    assert BigEndian(n, 1) == BigEndian(n / 256, 0) + [n % 256];
  }

  /** However little of an item is there, its whole head is counted. */
  lemma HeadCounted(it: Item, k: nat)
    requires WellFormed(it) && 0 < k <= |Encode(it)|
    ensures CborItemLen(Encode(it)[..k]) >= 1 + Extra(it.w)
  {
    var major: Major, n, body := Parts(it);
    assert Encode(it)[..k][0] == Head(major, it.w, n)[0];
  }

  /** Of an item of indefinite length, or with a reserved head, the initial byte alone is counted. */
  lemma IndefiniteIsOneByte(p: bytes)
    requires p != [] && p[0] % 32 >= 28
    ensures CborItemLen(p) == 1
  {
  }

  /** Cutting it short never makes the item look complete before the cut. */
  lemma ItemLenOfShorter(p: bytes, k: nat)
    requires 0 < k <= |p| && k <= CborItemLen(p)
    ensures CborItemLen(p[..k]) >= k
  {
    assert p[..k][0] == p[0];
  }

  /** Cutting the input at the computed length leaves a prefix that measures itself. */
  lemma ItemLenOfPrefix(p: bytes)
    requires CborItemLen(p) <= |p|
    ensures CborItemLen(p[..CborItemLen(p)]) == CborItemLen(p)
  {
    if p != [] {
      var q := p[..CborItemLen(p)];
      assert q[0] == p[0];
    }
  }
}
