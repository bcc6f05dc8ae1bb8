/** Decoding `application/x-www-form-urlencoded` text, on the bytes of its UTF-8 form. */
module Form {
  import opened Wrappers

  type byte = x: nat | x < 256

  type Bytes = seq<byte>

  const PLUS: byte := 0x2B
  const PERCENT: byte := 0x25
  const SPACE: byte := 0x20
  const AMP: byte := 0x26
  const EQUALS: byte := 0x3D
  const HASH: byte := 0x23
  const QUESTION: byte := 0x3F

  // ----- percent decoding -----

  function HexDigit(b: byte): Option<byte> {
    if 0x30 <= b <= 0x39 then Some(b - 0x30)
    else if 0x61 <= b <= 0x66 then Some(b - 0x61 + 10)
    else if 0x41 <= b <= 0x46 then Some(b - 0x41 + 10)
    else None
  }

  predicate IsHex(b: byte) { HexDigit(b).Some? }

  /** `(h << 4) | l` on two hexadecimal digits. */
  function Nibbles(h: byte, l: byte): byte
    requires IsHex(h) && IsHex(l)
  {
    16 * HexDigit(h).value + HexDigit(l).value
  }

  /** On 4-bit operands the shift-and-or of the source is `16 * h + l`. */
  lemma ShiftOr(h: bv8, l: bv8)
    requires h < 16 && l < 16
    ensures (h << 4) | l == 16 * h + l
  {
  }

  lemma NibbleValue(h: bv8, l: bv8)
    requires h < 16 && l < 16
    ensures (16 * h + l) as nat == 16 * (h as nat) + (l as nat)
  {
  }

  /** The decoded byte, as the source computes it. */
  function Join(h: bv8, l: bv8): (b: byte)
    requires h < 16 && l < 16
    ensures b as nat == 16 * (h as nat) + (l as nat)
  {
    ShiftOr(h, l);
    NibbleValue(h, l);
    ((h << 4) | l) as nat
  }

  lemma ThereAndBack(n: byte)
    requires n < 16
    ensures (n as bv8) < 16 && (n as bv8) as nat == n as nat
  {
  }

  lemma JoinBytes(h: byte, l: byte)
    requires h < 16 && l < 16
    ensures (h as bv8) < 16 && (l as bv8) < 16
    ensures Join(h as bv8, l as bv8) == 16 * h + l
  {
    hide Join;
    ThereAndBack(h);
    ThereAndBack(l);
  }

  lemma JoinIsNibbles(h: byte, l: byte)
    requires IsHex(h) && IsHex(l)
    ensures HexDigit(h).value < 16 && HexDigit(l).value < 16
    ensures (HexDigit(h).value as bv8) < 16 && (HexDigit(l).value as bv8) < 16
    ensures Join(HexDigit(h).value as bv8, HexDigit(l).value as bv8) == Nibbles(h, l)
  {
    hide Join;
    HexRange(h);
    HexRange(l);
    hide HexDigit;
    JoinBytes(HexDigit(h).value, HexDigit(l).value);
  }

  lemma HexRange(b: byte)
    requires IsHex(b)
    ensures HexDigit(b).value < 16
  {
  }

  /** A `%` and two hexadecimal digits. */
  predicate Triple(s: Bytes) { |s| >= 3 && s[0] == PERCENT && IsHex(s[1]) && IsHex(s[2]) }

  ghost function Decoded(s: Bytes): Bytes {
    if s == [] then []
    else if s[0] == PLUS then [SPACE] + Decoded(s[1..])
    else if Triple(s) then [Nibbles(s[1], s[2])] + Decoded(s[3..])
    else [s[0]] + Decoded(s[1..])
  }

  /** `percent_decode`, up to the final reading as UTF-8. */
  method PercentDecode(bytes: Bytes) returns (out: Bytes)
    ensures out == Decoded(bytes)
  {
    hide Join, Nibbles, HexDigit;
    out := [];
    var i := 0;
    while i < |bytes|
      invariant 0 <= i <= |bytes|
      invariant out + Decoded(bytes[i..]) == Decoded(bytes)
    {
      var b := bytes[i];
      ghost var todo := bytes[i..];
      assert todo[1..] == bytes[i + 1..];
      if b == PLUS {
        Emit(out, SPACE, Decoded(bytes[i + 1..]));
        out, i := out + [SPACE], i + 1;
      } else if b == PERCENT && i + 2 < |bytes| {
        var h, l := HexDigit(bytes[i + 1]), HexDigit(bytes[i + 2]);
        if h.Some? && l.Some? {
          assert Triple(todo) && todo[3..] == bytes[i + 3..];
          JoinIsNibbles(bytes[i + 1], bytes[i + 2]);
          Emit(out, Join(h.value as bv8, l.value as bv8), Decoded(bytes[i + 3..]));
          out, i := out + [Join(h.value as bv8, l.value as bv8)], i + 3;
          continue;
        }
        assert !Triple(todo);
        Emit(out, b, Decoded(bytes[i + 1..]));
        out, i := out + [b], i + 1;
      } else {
        assert !Triple(todo);
        Emit(out, b, Decoded(bytes[i + 1..]));
        out, i := out + [b], i + 1;
      }
    }
  }

  lemma Emit(out: Bytes, b: byte, rest: Bytes)
    ensures out + [b] + rest == out + ([b] + rest)
  {
  }

  /** The same hexadecimal digit, in either case. */
  predicate SameDigit(b: byte, c: byte) {
    b == c || (0x41 <= b <= 0x46 && c == b + 0x20) || (0x41 <= c <= 0x46 && b == c + 0x20)
  }

  lemma DigitCase(b: byte, c: byte)
    requires SameDigit(b, c)
    ensures HexDigit(b) == HexDigit(c)
  {
  }

  /** The case of the digits of an escape does not matter, whatever follows. */
  lemma EscapeCase(h: byte, l: byte, h': byte, l': byte, rest: Bytes)
    requires IsHex(h) && IsHex(l) && SameDigit(h, h') && SameDigit(l, l')
    ensures Decoded([PERCENT, h, l] + rest) == Decoded([PERCENT, h', l'] + rest)
  {
    DigitCase(h, h');
    DigitCase(l, l');
    EscapeDecodes(h, l, rest);
    EscapeDecodes(h', l', rest);
  }

  lemma EscapeDecodes(h: byte, l: byte, rest: Bytes)
    requires IsHex(h) && IsHex(l)
    ensures Decoded([PERCENT, h, l] + rest) == [Nibbles(h, l)] + Decoded(rest)
  {
    var s := [PERCENT, h, l] + rest;
    assert s[3..] == rest;
  }

  // ----- key/value pairs -----

  datatype Pair = Pair(key: Bytes, value: Bytes)

  /** `split(sep)`: always at least one piece. */
  function Split(s: Bytes, sep: byte): (r: seq<Bytes>)
    ensures r != []
  {
    if s == [] then [[]]
    else
      var rest := Split(s[1..], sep);
      if s[0] == sep then [[]] + rest else [[s[0]] + rest[0]] + rest[1..]
  }

  /** The text before the first `sep`, and the text after it if there is one. */
  function SplitOnce(s: Bytes, sep: byte): (Bytes, Option<Bytes>) {
    if s == [] then ([], None)
    else if s[0] == sep then ([], Some(s[1..]))
    else var (k, v) := SplitOnce(s[1..], sep); ([s[0]] + k, v)
  }

  /** One `key=value` piece; nothing when its key is empty. */
  ghost function PairOf(piece: Bytes): seq<Pair> {
    var (k, v) := SplitOnce(piece, EQUALS);
    if k == [] then [] else [Pair(Decoded(k), Decoded(if v.Some? then v.value else []))]
  }

  ghost function PairsOf(pieces: seq<Bytes>): seq<Pair> {
    if pieces == [] then [] else PairOf(pieces[0]) + PairsOf(pieces[1..])
  }

  /** The last value of a key. */
  ghost function LastValue(pairs: seq<Pair>, key: Bytes): Option<Bytes> {
    if pairs == [] then None
    else if pairs[|pairs| - 1].key == key then Some(pairs[|pairs| - 1].value)
    else LastValue(pairs[..|pairs| - 1], key)
  }

  /** The map holds, for every key of the list and no other, its last value. */
  ghost predicate Agree(values: map<Bytes, Bytes>, pairs: seq<Pair>) {
    forall key :: LastValue(pairs, key) == if key in values then Some(values[key]) else None
  }

  lemma AgreeSnoc(values: map<Bytes, Bytes>, pairs: seq<Pair>, p: Pair)
    requires Agree(values, pairs)
    ensures Agree(values[p.key := p.value], pairs + [p])
  {
  }

  lemma PairsStep(done: seq<Pair>, pieces: seq<Bytes>, n: nat)
    requires n < |pieces|
    ensures done + PairsOf(pieces[n..]) == done + PairOf(pieces[n]) + PairsOf(pieces[n + 1..])
  {
  }

  lemma NoPair(piece: Bytes)
    requires SplitOnce(piece, EQUALS).0 == []
    ensures PairOf(piece) == []
  {
  }

  lemma OnePair(piece: Bytes)
    requires SplitOnce(piece, EQUALS).0 != []
    ensures var (k, v) := SplitOnce(piece, EQUALS);
      PairOf(piece) == [Pair(Decoded(k), Decoded(if v.Some? then v.value else []))]
  {
  }

  class FormData {
    const values: map<Bytes, Bytes>
    const pairs: seq<Pair>

    ghost predicate Valid() { Agree(values, pairs) }

    /** `FormData::parse`. */
    constructor Parse(body: Bytes)
      ensures Valid() && pairs == PairsOf(Split(body, AMP))
    {
      var last, all := ParsePairs(body);
      values, pairs := last, all;
    }

    static method ParsePairs(body: Bytes) returns (last: map<Bytes, Bytes>, all: seq<Pair>)
      ensures Agree(last, all) && all == PairsOf(Split(body, AMP))
    {
      last, all := map[], [];
      assert Agree(last, all) && PairsOf([]) == [] && PairOf([]) == [];
      hide PairOf, PairsOf, Agree, Decoded, Split, SplitOnce;
      var pieces := Split(body, AMP);
      for n := 0 to |pieces|
        invariant Agree(last, all)
        invariant all + PairsOf(pieces[n..]) == PairsOf(pieces)
      {
        PairsStep(all, pieces, n);
        assert all + [] == all;
        var piece := pieces[n];
        if piece == [] { continue; }
        var (rawKey, rawValue) := SplitOnce(piece, EQUALS);
        if rawKey == [] { NoPair(piece); continue; }
        var key := PercentDecode(rawKey);
        var value := PercentDecode(if rawValue.Some? then rawValue.value else []);
        OnePair(piece);
        AgreeSnoc(last, all, Pair(key, value));
        last := last[key := value];
        all := all + [Pair(key, value)];
      }
    }

    function Get(key: Bytes): Option<Bytes> {
      if key in values then Some(values[key]) else None
    }

    function GetAll(key: Bytes): seq<Bytes> {
      AllValues(pairs, key)
    }

    /** `get` is the last element of `get_all`. */
    lemma GetIsLastOfAll(key: Bytes)
      requires Valid()
      ensures Get(key) == if GetAll(key) == [] then None else Some(GetAll(key)[|GetAll(key)| - 1])
    {
      LastOfAll(pairs, key);
    }
  }

  /** Every value of a key, in order. */
  function AllValues(pairs: seq<Pair>, key: Bytes): seq<Bytes> {
    if pairs == [] then []
    else (if pairs[0].key == key then [pairs[0].value] else []) + AllValues(pairs[1..], key)
  }

  lemma {:induction false} AllValuesSnoc(pairs: seq<Pair>, p: Pair, key: Bytes)
    ensures AllValues(pairs + [p], key) == AllValues(pairs, key) + if p.key == key then [p.value] else []
  {
    if pairs == [] {
      assert [p][1..] == [];
    } else {
      assert (pairs + [p])[1..] == pairs[1..] + [p];
      AllValuesSnoc(pairs[1..], p, key);
    }
  }

  lemma {:induction false} LastOfAll(pairs: seq<Pair>, key: Bytes)
    ensures LastValue(pairs, key) ==
      var all := AllValues(pairs, key); if all == [] then None else Some(all[|all| - 1])
  {
    if pairs != [] {
      var front, p := pairs[..|pairs| - 1], pairs[|pairs| - 1];
      assert pairs == front + [p];
      LastOfAll(front, key);
      AllValuesSnoc(front, p, key);
    }
  }

  // ----- the standard's serializer -----

  /** The bytes the urlencoded percent-encode set leaves alone: letters, digits and `* - . _`. */
  predicate Unreserved(b: byte) {
    0x30 <= b <= 0x39 || 0x41 <= b <= 0x5A || 0x61 <= b <= 0x7A || b == 0x2A || b == 0x2D || b == 0x2E || b == 0x5F
  }

  function UpperHex(n: nat): byte
    requires n < 16
  {
    if n < 10 then 0x30 + n else 0x41 + n - 10
  }

  function Escaped(b: byte): Bytes { [PERCENT, UpperHex(b / 16), UpperHex(b % 16)] }

  function EncodeByte(b: byte): Bytes {
    if b == SPACE then [PLUS] else if Unreserved(b) then [b] else Escaped(b)
  }

  function Encode(s: Bytes): Bytes {
    if s == [] then [] else EncodeByte(s[0]) + Encode(s[1..])
  }

  function SerializePair(p: Pair): Bytes { Encode(p.key) + [EQUALS] + Encode(p.value) }

  /** The `application/x-www-form-urlencoded` serializer (WHATWG URL Standard, section 5.2). */
  function Serialize(ps: seq<Pair>): Bytes {
    if ps == [] then []
    else if |ps| == 1 then SerializePair(ps[0])
    else SerializePair(ps[0]) + [AMP] + Serialize(ps[1..])
  }

  lemma DecodeEscaped(b: byte, t: Bytes)
    ensures Decoded(Escaped(b) + t) == [b] + Decoded(t)
  {
  }

  lemma DecodeEncodedByte(b: byte, t: Bytes)
    ensures Decoded(EncodeByte(b) + t) == [b] + Decoded(t)
  {
    if b == SPACE { assert ([PLUS] + t)[1..] == t; }
    else if Unreserved(b) { assert ([b] + t)[1..] == t; }
    else { DecodeEscaped(b, t); }
  }

  lemma {:induction false} DecodeEncode(s: Bytes)
    ensures Decoded(Encode(s)) == s
  {
    if s != [] {
      DecodeEncode(s[1..]);
      DecodeEncodedByte(s[0], Encode(s[1..]));
    }
  }

  /** Encoded text holds no separator. */
  lemma {:induction false} EncodeClean(s: Bytes)
    ensures AMP !in Encode(s) && EQUALS !in Encode(s)
    ensures s != [] ==> Encode(s) != []
  {
    if s != [] { EncodeClean(s[1..]); }
  }

  lemma {:induction false} SplitAtSeparator(a: Bytes, sep: byte, r: Bytes)
    requires sep !in a
    ensures Split(a + [sep] + r, sep) == [a] + Split(r, sep)
  {
    if a == [] {
      assert ([sep] + r)[1..] == r && a + [sep] + r == [sep] + r;
    } else {
      assert (a + [sep] + r)[1..] == a[1..] + [sep] + r && a[0] in a && a == [a[0]] + a[1..];
      SplitAtSeparator(a[1..], sep, r);
      assert ([a[1..]] + Split(r, sep))[1..] == Split(r, sep);
    }
  }

  lemma {:induction false} SplitNone(a: Bytes, sep: byte)
    requires sep !in a
    ensures Split(a, sep) == [a]
  {
    if a != [] {
      assert a[0] in a && a == [a[0]] + a[1..];
      SplitNone(a[1..], sep);
      assert [a[1..]][1..] == [];
    }
  }

  lemma {:induction false} SplitOnceAt(a: Bytes, sep: byte, r: Bytes)
    requires sep !in a
    ensures SplitOnce(a + [sep] + r, sep) == (a, Some(r))
  {
    if a == [] {
      assert ([sep] + r)[1..] == r && a + [sep] + r == [sep] + r;
    } else {
      assert (a + [sep] + r)[1..] == a[1..] + [sep] + r && a[0] in a && a == [a[0]] + a[1..];
      SplitOnceAt(a[1..], sep, r);
    }
  }

  lemma {:induction false} SplitOnceNone(a: Bytes, sep: byte)
    requires sep !in a
    ensures SplitOnce(a, sep) == (a, None)
  {
    if a != [] {
      assert a[0] in a && a == [a[0]] + a[1..];
      SplitOnceNone(a[1..], sep);
    }
  }

  /** A piece is a key and, after its first equals sign, a value; without one the value is empty, and
      with an empty key the piece is passed over. */
  lemma PieceExact(k: Bytes, v: Bytes)
    requires EQUALS !in k
    ensures PairOf(k) == if k == [] then [] else [Pair(Decoded(k), [])]
    ensures PairOf(k + [EQUALS] + v) == if k == [] then [] else [Pair(Decoded(k), Decoded(v))]
  {
    SplitOnceNone(k, EQUALS);
    SplitOnceAt(k, EQUALS, v);
    assert Decoded([]) == [];
    hide Decoded, SplitOnce;
  }

  lemma SerializedPair(p: Pair)
    ensures AMP !in SerializePair(p)
    ensures PairOf(SerializePair(p)) == if p.key == [] then [] else [p]
  {
    EncodeClean(p.key);
    EncodeClean(p.value);
    SplitOnceAt(Encode(p.key), EQUALS, Encode(p.value));
    DecodeEncode(p.key);
    DecodeEncode(p.value);
  }

  /** The pairs that have a key. */
  ghost function Keyed(ps: seq<Pair>): seq<Pair> {
    if ps == [] then [] else (if ps[0].key == [] then [] else [ps[0]]) + Keyed(ps[1..])
  }

  lemma {:induction false} ParseSerialize(ps: seq<Pair>)
    ensures PairsOf(Split(Serialize(ps), AMP)) == Keyed(ps)
  {
    if ps == [] {
      var one: seq<Bytes> := [[]];
      assert one[1..] == [];
    } else {
      var rest := ps[1..];
      SerializedPair(ps[0]);
      if |ps| == 1 {
        SplitNone(SerializePair(ps[0]), AMP);
        assert [SerializePair(ps[0])][1..] == [];
      } else {
        ParseSerialize(rest);
        SplitAtSeparator(SerializePair(ps[0]), AMP, Serialize(rest));
        var pieces := Split(Serialize(rest), AMP);
        assert ([SerializePair(ps[0])] + pieces)[1..] == pieces;
      }
    }
  }

  lemma {:induction false} KeyedExact(ps: seq<Pair>)
    ensures |Keyed(ps)| <= |ps|
    ensures Keyed(ps) == ps <==> forall i :: 0 <= i < |ps| ==> ps[i].key != []
  {
    if ps != [] {
      KeyedExact(ps[1..]);
      assert ps == [ps[0]] + ps[1..];
      if ps[0].key != [] {
        assert Keyed(ps)[1..] == Keyed(ps[1..]);
        if forall i :: 0 <= i < |ps[1..]| ==> ps[1..][i].key != [] {
          forall i | 0 <= i < |ps| ensures ps[i].key != [] { if i > 0 { assert ps[i] == ps[1..][i - 1]; } }
        }
        if forall i :: 0 <= i < |ps| ==> ps[i].key != [] {
          assert forall i :: 0 <= i < |ps[1..]| ==> ps[1..][i] == ps[i + 1];
        }
      }
    }
  }

  /** Parsing what the standard's serializer writes gives the pairs back exactly when every key is
      nonempty; otherwise the pairs without a key are the ones missing. */
  lemma RoundTripExact(ps: seq<Pair>)
    ensures PairsOf(Split(Serialize(ps), AMP)) == Keyed(ps)
    ensures PairsOf(Split(Serialize(ps), AMP)) == ps <==> forall i :: 0 <= i < |ps| ==> ps[i].key != []
  {
    ParseSerialize(ps);
    KeyedExact(ps);
  }

  /** Every byte is decoded from its escape, the digits written in either case. */
  lemma EscapeInAnyCase(b: byte, h: byte, l: byte, rest: Bytes)
    requires SameDigit(h, UpperHex(b / 16)) && SameDigit(l, UpperHex(b % 16))
    ensures Decoded([PERCENT, h, l] + rest) == [b] + Decoded(rest)
  {
    DigitCase(h, UpperHex(b / 16));
    DigitCase(l, UpperHex(b % 16));
    EscapeDecodes(h, l, rest);
  }

  // ----- the light encoder of the admin -----

  predicate LightSpecial(b: byte) { b == SPACE || b == AMP || b == EQUALS || b == HASH || b == QUESTION }

  ghost function Lightened(s: Bytes): Bytes {
    if s == [] then []
    else (if LightSpecial(s[0]) then Escaped(s[0]) else [s[0]]) + Lightened(s[1..])
  }

  lemma LightStep(s: Bytes, i: nat, out: Bytes)
    requires i < |s|
    ensures var code := if LightSpecial(s[i]) then Escaped(s[i]) else [s[i]];
      out + Lightened(s[i..]) == (out + code) + Lightened(s[i + 1..])
  {
  }

  /** `urlencoding_light`, byte by byte: every character it replaces is one ASCII byte. */
  method UrlencodingLight(s: Bytes) returns (out: Bytes)
    ensures out == Lightened(s)
  {
    out := [];
    assert Lightened([]) == [];
    hide Lightened, Escaped, LightSpecial;
    for i := 0 to |s|
      invariant out + Lightened(s[i..]) == Lightened(s)
    {
      LightStep(s, i, out);
      var code := LightCode(s[i]);
      out := out + code;
    }
  }

  /** The replacement table. */
  method LightCode(b: byte) returns (code: Bytes)
    ensures code == if LightSpecial(b) then Escaped(b) else [b]
  {
    match b
    case 0x20 => return [PERCENT, 0x32, 0x30];
    case 0x26 => return [PERCENT, 0x32, 0x36];
    case 0x3D => return [PERCENT, 0x33, 0x44];
    case 0x23 => return [PERCENT, 0x32, 0x33];
    case 0x3F => return [PERCENT, 0x33, 0x46];
    case _ => return [b];
  }

  lemma {:induction false} LightShrinks(s: Bytes)
    ensures |Decoded(Lightened(s))| <= |s|
    decreases |s|
  {
    if s != [] {
      var t := Lightened(s[1..]);
      if LightSpecial(s[0]) {
        DecodeEscaped(s[0], t);
        LightShrinks(s[1..]);
      } else {
        assert Lightened(s)[1..] == t;
        LightTriple(s);
        if Triple(s) {
          assert s[3..] == s[1..][1..][1..];
          assert Lightened(s)[3..] == Lightened(s[3..]);
          LightShrinks(s[3..]);
        } else {
          LightShrinks(s[1..]);
        }
      }
    }
  }

  /** Encoding neither makes nor breaks a `%` escape at the front. */
  lemma LightTriple(s: Bytes)
    requires s != [] && !LightSpecial(s[0])
    ensures Triple(Lightened(s)) <==> Triple(s)
    ensures Triple(s) ==> Lightened(s) == s[..3] + Lightened(s[3..])
  {
    var t := s[1..];
    assert Lightened(s) == [s[0]] + Lightened(t);
    if t != [] {
      LightFront(t);
      if t[1..] != [] {
        LightFront(t[1..]);
        assert t[1..][1..] == s[3..];
      }
    }
  }

  lemma LightFront(t: Bytes)
    requires t != []
    ensures Lightened(t) != [] && (IsHex(Lightened(t)[0]) <==> IsHex(t[0]))
    ensures IsHex(t[0]) ==> Lightened(t) == [t[0]] + Lightened(t[1..])
  {
  }

  /** No plus sign, and no percent sign that reads as an escape. */
  ghost predicate Plain(s: Bytes) {
    s == [] || (s[0] != PLUS && !Triple(s) && Plain(s[1..]))
  }

  /** Decoding undoes the light encoder exactly on the texts without `+` and without a `%` followed
      by two hexadecimal digits. */
  lemma {:induction false} LightRoundTripExact(s: Bytes)
    ensures Decoded(Lightened(s)) == s <==> Plain(s)
  {
    if s != [] {
      var t := Lightened(s[1..]);
      assert s == [s[0]] + s[1..];
      LightRoundTripExact(s[1..]);
      if LightSpecial(s[0]) {
        DecodeEscaped(s[0], t);
      } else {
        assert Lightened(s)[1..] == t;
        LightTriple(s);
        if Triple(s) {
          assert Lightened(s)[3..] == Lightened(s[3..]);
          LightShrinks(s[3..]);
          assert |Decoded(Lightened(s))| < |s|;
        }
      }
    }
  }

  /** The five characters that would end or split the value do not survive. */
  lemma {:induction false} LightHidesSpecials(s: Bytes, b: byte)
    requires b in Lightened(s)
    ensures b !in {SPACE, AMP, EQUALS, HASH, QUESTION}
  {
    if !(b in if LightSpecial(s[0]) then Escaped(s[0]) else [s[0]]) { LightHidesSpecials(s[1..], b); }
  }
}
