/**
 * `MixedString`: a file name as the kernel stores it, a byte string that is usually
 * but not always UTF-8. It is a list of segments: well-formed text, raw bytes that
 * were not text, and a marker that the input ended inside a character.
 *
 * A Rust `String` is modelled by its UTF-8 bytes, so `Str` holds bytes too; the
 * predicate `TextValid` says they are well-formed, as the Rust type guarantees.
 * `to_string` produces a `String`, modelled by its bytes as well.
 */
module Mixed {
  import opened Io
  import opened Utf8

  datatype Segment =
    | Str(text: seq<byte>)
    | Bytes(raw: seq<byte>)
    | UnexpectedEOF

  datatype MixedString = MixedString(data: seq<Segment>)

  /** Every text segment holds well-formed UTF-8. */
  predicate TextValid(m: MixedString) {
    forall i :: 0 <= i < |m.data| && m.data[i].Str? ==> Valid(m.data[i].text)
  }

  function Rev<T>(s: seq<T>): (r: seq<T>)
    ensures |r| == |s| && forall i :: 0 <= i < |s| ==> r[i] == s[|s| - 1 - i]
  {
    seq(|s|, i requires 0 <= i < |s| => s[|s| - 1 - i])
  }

  lemma RevRev<T>(s: seq<T>)
    ensures Rev(Rev(s)) == s
  {
  }

  lemma RevConcat<T>(a: seq<T>, b: seq<T>)
    ensures Rev(a + b) == Rev(b) + Rev(a)
  {
  }

  /** The concatenation of `f` over the segments, in order. */
  function Join(d: seq<Segment>, f: Segment -> seq<byte>): seq<byte> {
    if d == [] then [] else Join(d[..|d| - 1], f) + f(d[|d| - 1])
  }

  lemma {:induction false} JoinConcat(a: seq<Segment>, b: seq<Segment>, f: Segment -> seq<byte>)
    ensures Join(a + b, f) == Join(a, f) + Join(b, f)
    decreases |b|
  {
    if b == [] {
      assert a + b == a;
    } else {
      var c := a + b;
      assert c[..|c| - 1] == a + b[..|b| - 1];
      JoinConcat(a, b[..|b| - 1], f);
    }
  }

  lemma JoinCons(x: Segment, d: seq<Segment>, f: Segment -> seq<byte>)
    ensures Join([x] + d, f) == f(x) + Join(d, f)
  {
    JoinConcat([x], d, f);
    assert [x][..0] == [];
  }

  // ---------------------------------------------------------------------------
  // from_bytes

  /** The text before an error, pushed only when it is not empty. */
  function Lead(b: seq<byte>, v: nat): seq<Segment>
    requires v <= |b|
  {
    if v == 0 then [] else [Str(b[..v])]
  }

  /**
   * `MixedString::from_bytes`: validate, keep the valid prefix as text, keep the error
   * chunk as bytes and go on after it; if the input ends inside a character, keep the
   * rest as bytes followed by `UnexpectedEOF`. When the (remaining) input is valid it
   * is pushed as text even if it is empty.
   */
  function Decode(b: seq<byte>): MixedString
    decreases |b|
  {
    match FromUtf8(b)
    case WellFormed => MixedString([Str(b)])
    case Malformed(v, Some(n)) =>
      MixedString(Lead(b, v) + [Bytes(b[v..v + n])] + Decode(b[v + n..]).data)
    case Malformed(v, None) =>
      MixedString(Lead(b, v) + [Bytes(b[v..]), UnexpectedEOF])
  }

  /** `Decode` on well-formed input. */
  lemma DecodeWhole(b: seq<byte>)
    requires FromUtf8(b).WellFormed?
    ensures Decode(b).data == [Str(b)]
  {
  }

  /** `Decode` when the validator reports an error chunk. */
  lemma DecodeChunk(b: seq<byte>)
    requires FromUtf8(b).Malformed? && FromUtf8(b).errorLen.Some?
    ensures var v, n := FromUtf8(b).validUpTo, FromUtf8(b).errorLen.value;
      Decode(b).data == Lead(b, v) + [Bytes(b[v..][..n])] + Decode(b[v..][n..]).data
  {
    var v, n := FromUtf8(b).validUpTo, FromUtf8(b).errorLen.value;
    assert b[v..][..n] == b[v..v + n] && b[v..][n..] == b[v + n..];
  }

  /** `Decode` when the input ends inside a character. */
  lemma DecodeCut(b: seq<byte>)
    requires FromUtf8(b).Malformed? && FromUtf8(b).errorLen.None?
    ensures var v := FromUtf8(b).validUpTo;
      Decode(b).data == Lead(b, v) + [Bytes(b[v..]), UnexpectedEOF]
  {
  }

  lemma SegmentsAssoc(a: seq<Segment>, b: seq<Segment>, c: seq<Segment>, d: seq<Segment>)
    ensures a + (b + c + d) == (a + b + c) + d
  {
  }

  method FromBytes(input: seq<byte>) returns (m: MixedString)
    ensures m == Decode(input)
  {
    hide Decode;
    hide FromUtf8;
    var res: seq<Segment> := [];
    var rest := input;
    ghost var target := Decode(input).data;
    while true
      invariant res + Decode(rest).data == target
      decreases |rest|
    {
      var check := FromUtf8(rest);
      if check.WellFormed? {
        DecodeWhole(rest);
        res := res + [Str(rest)];
        break;
      }
      var valid, afterValid := rest[..check.validUpTo], rest[check.validUpTo..];
      ghost var before := res;
      if valid != [] {
        res := res + [Str(valid)];
      }
      assert res == before + Lead(rest, check.validUpTo);
      if check.errorLen.Some? {
        var n := check.errorLen.value;
        DecodeChunk(rest);
        SegmentsAssoc(before, Lead(rest, check.validUpTo), [Bytes(afterValid[..n])], Decode(afterValid[n..]).data);
        res := res + [Bytes(afterValid[..n])];
        rest := afterValid[n..];
      } else {
        DecodeCut(rest);
        res := res + [Bytes(afterValid), UnexpectedEOF];
        break;
      }
    }
    m := MixedString(res);
  }

  /** `MixedString::from_string`: one text segment. */
  function FromString(s: seq<byte>): (m: MixedString)
    requires Valid(s)
    ensures Flatten(m) == s
    ensures m == Decode(s)
  {
    FromUtf8Valid(s);
    JoinCons(Str(s), [], SegBytes);
    assert [Str(s)] + [] == [Str(s)];
    MixedString([Str(s)])
  }

  // ---------------------------------------------------------------------------
  // to_bytes

  function SegBytes(x: Segment): seq<byte> {
    match x
    case Str(t) => t
    case Bytes(r) => r
    case UnexpectedEOF => []
  }

  /** The bytes of a mixed string: text and raw bytes in order, the EOF marker dropped. */
  function Flatten(m: MixedString): seq<byte> {
    Join(m.data, SegBytes)
  }

  method ToBytes(m: MixedString) returns (res: seq<byte>)
    ensures res == Flatten(m)
  {
    res := [];
    for i := 0 to |m.data|
      invariant res == Join(m.data[..i], SegBytes)
    {
      assert m.data[..i + 1][..i] == m.data[..i];
      match m.data[i]
      case Str(s) => res := res + s;
      case Bytes(bytes) => res := res + bytes;
      case UnexpectedEOF =>
    }
    assert m.data[..|m.data|] == m.data;
  }

  // ---------------------------------------------------------------------------
  // to_string

  /** A lower-case hexadecimal digit. */
  function HexDigit(d: nat): (c: byte)
    requires d < 16
    ensures c < 0x80
  {
    if d < 10 then 0x30 + d else 0x61 + (d - 10)
  }

  /** The escape `\u{xx}` of one byte, two lower-case hexadecimal digits. */
  function Escape(b: byte): (e: seq<byte>)
    ensures |e| == 6
  {
    [0x5C, 0x75, 0x7B, HexDigit(b / 16), HexDigit(b % 16), 0x7D]
  }

  function Escapes(r: seq<byte>): (e: seq<byte>)
    ensures |e| == 6 * |r|
  {
    if r == [] then [] else Escapes(r[..|r| - 1]) + Escape(r[|r| - 1])
  }

  /** U+FFDD in UTF-8. */
  const EofMark: seq<byte> := [0xEF, 0xBF, 0x9D]

  function SegText(x: Segment): seq<byte> {
    match x
    case Str(t) => t
    case Bytes(r) => Escapes(r)
    case UnexpectedEOF => EofMark
  }

  /** `to_string` (and `Display`): text as is, each raw byte escaped, EOF as U+FFDD. */
  function Render(m: MixedString): seq<byte> {
    Join(m.data, SegText)
  }

  method ToString(m: MixedString) returns (res: seq<byte>)
    ensures res == Render(m)
  {
    res := [];
    for i := 0 to |m.data|
      invariant res == Join(m.data[..i], SegText)
    {
      assert m.data[..i + 1][..i] == m.data[..i];
      match m.data[i]
      case Str(s) => res := res + s;
      case Bytes(bytes) =>
        ghost var before := res;
        for j := 0 to |bytes|
          invariant res == before + Escapes(bytes[..j])
        {
          assert bytes[..j + 1][..j] == bytes[..j];
          res := res + Escape(bytes[j]);
        }
        assert bytes[..|bytes|] == bytes;
      case UnexpectedEOF => res := res + EofMark;
    }
    assert m.data[..|m.data|] == m.data;
  }

  /** Reads a hexadecimal digit back. */
  function HexValue(c: byte): Option<nat> {
    if 0x30 <= c <= 0x39 then Some(c - 0x30)
    else if 0x61 <= c <= 0x66 then Some(c - 0x61 + 10)
    else None
  }

  /** Reads a run of `\u{xx}` escapes back into the bytes they stand for. */
  function Unescape(e: seq<byte>): Option<seq<byte>>
    decreases |e|
  {
    if e == [] then Some([])
    else if |e| < 6 || e[..3] != [0x5C, 0x75, 0x7B] || e[5] != 0x7D then None
    else
      match (HexValue(e[3]), HexValue(e[4]), Unescape(e[6..]))
      case (Some(h), Some(l), Some(rest)) => Some([(16 * h + l) as byte] + rest)
      case _ => None
  }

  lemma {:induction false} EscapesCons(b: byte, r: seq<byte>)
    ensures Escapes([b] + r) == Escape(b) + Escapes(r)
    decreases |r|
  {
    if r != [] {
      var s := [b] + r;
      assert s[..|s| - 1] == [b] + r[..|r| - 1];
      EscapesCons(b, r[..|r| - 1]);
    } else {
      assert [b] + r == [b];
      assert [b][..0] == [];
    }
  }

  lemma HexValueDigit(d: nat)
    requires d < 16
    ensures HexValue(HexDigit(d)) == Some(d)
  {
  }

  /** One escape is read back, followed by whatever the rest reads back to. */
  lemma UnescapeOne(b: byte, t: seq<byte>, rest: seq<byte>)
    requires Unescape(t) == Some(rest)
    ensures Unescape(Escape(b) + t) == Some([b] + rest)
  {
    var e := Escape(b) + t;
    HexValueDigit(b / 16);
    HexValueDigit(b % 16);
    assert e[..3] == [0x5C, 0x75, 0x7B] && e[5] == 0x7D && e[6..] == t;
    assert e[3] == HexDigit(b / 16) && e[4] == HexDigit(b % 16);
  }

  /** The escapes of the raw bytes can be read back: no information is lost. */
  lemma {:induction false} UnescapeEscapes(r: seq<byte>)
    ensures Unescape(Escapes(r)) == Some(r)
    decreases |r|
  {
    if r != [] {
      hide Unescape;
      hide Escape;
      EscapesCons(r[0], r[1..]);
      assert [r[0]] + r[1..] == r;
      UnescapeEscapes(r[1..]);
      UnescapeOne(r[0], Escapes(r[1..]), r[1..]);
    }
  }

  lemma {:induction false} EscapesAscii(r: seq<byte>)
    ensures forall i :: 0 <= i < |Escapes(r)| ==> Escapes(r)[i] < 0x80
    decreases |r|
  {
    if r != [] {
      EscapesAscii(r[..|r| - 1]);
    }
  }

  lemma {:induction false} RenderPrefixValid(d: seq<Segment>)
    requires TextValid(MixedString(d))
    ensures Valid(Join(d, SegText))
    decreases |d|
  {
    if d != [] {
      var init := d[..|d| - 1];
      assert TextValid(MixedString(init)) by {
        forall i | 0 <= i < |init| && init[i].Str? ensures Valid(init[i].text) {
          assert init[i] == d[i];
        }
      }
      RenderPrefixValid(init);
      var x := d[|d| - 1];
      assert Valid(SegText(x)) by {
        match x
        case Str(t) =>
        case Bytes(r) => EscapesAscii(r); AsciiValid(Escapes(r));
        case UnexpectedEOF => assert IsChar(EofMark); CharValid(EofMark);
      }
      ValidConcat(Join(init, SegText), SegText(x));
    }
  }

  /** `to_string` always yields a valid Rust `String`. */
  lemma RenderValid(m: MixedString)
    requires TextValid(m)
    ensures Valid(Render(m))
  {
    RenderPrefixValid(m.data);
  }

  // ---------------------------------------------------------------------------
  // What from_bytes produces

  lemma FlattenLead(b: seq<byte>, v: nat)
    requires v <= |b|
    ensures Join(Lead(b, v), SegBytes) == b[..v]
  {
    if v > 0 {
      JoinCons(Str(b[..v]), [], SegBytes);
      assert [Str(b[..v])] + [] == [Str(b[..v])];
    }
  }

  lemma RoundTripChunk(b: seq<byte>)
    requires FromUtf8(b).Malformed? && FromUtf8(b).errorLen.Some?
    requires var v, n := FromUtf8(b).validUpTo, FromUtf8(b).errorLen.value;
      Flatten(Decode(b[v..][n..])) == b[v..][n..]
    ensures Flatten(Decode(b)) == b
  {
    hide Decode;
    hide FromUtf8;
    var v, n := FromUtf8(b).validUpTo, FromUtf8(b).errorLen.value;
    var chunk, rest := b[v..][..n], Decode(b[v..][n..]).data;
    DecodeChunk(b);
    assert Lead(b, v) + [Bytes(chunk)] + rest == Lead(b, v) + ([Bytes(chunk)] + rest);
    JoinConcat(Lead(b, v), [Bytes(chunk)] + rest, SegBytes);
    JoinCons(Bytes(chunk), rest, SegBytes);
    FlattenLead(b, v);
    assert b == b[..v] + (chunk + b[v..][n..]);
  }

  lemma RoundTripCut(b: seq<byte>)
    requires FromUtf8(b).Malformed? && FromUtf8(b).errorLen.None?
    ensures Flatten(Decode(b)) == b
  {
    hide Decode;
    hide FromUtf8;
    var v := FromUtf8(b).validUpTo;
    DecodeCut(b);
    JoinConcat(Lead(b, v), [Bytes(b[v..]), UnexpectedEOF], SegBytes);
    JoinCons(Bytes(b[v..]), [UnexpectedEOF], SegBytes);
    JoinCons(UnexpectedEOF, [], SegBytes);
    assert [UnexpectedEOF] + [] == [UnexpectedEOF];
    FlattenLead(b, v);
    assert b == b[..v] + b[v..];
  }

  /** `to_bytes` undoes `from_bytes`. */
  lemma {:induction false} DecodeRoundTrip(b: seq<byte>)
    ensures Flatten(Decode(b)) == b
    decreases |b|
  {
    hide Decode;
    hide FromUtf8;
    var check := FromUtf8(b);
    if check.WellFormed? {
      DecodeWhole(b);
      JoinCons(Str(b), [], SegBytes);
      assert [Str(b)] + [] == [Str(b)];
    } else if check.errorLen.Some? {
      DecodeRoundTrip(b[check.validUpTo..][check.errorLen.value..]);
      RoundTripChunk(b);
    } else {
      RoundTripCut(b);
    }
  }

  /**
   * Segment `i` is well-formed text, empty only as the last segment; or 1 to 3 bytes
   * that are not well-formed and are either the maximal subpart of the bytes from there
   * on or, right before the EOF marker, the cut-off start of a character; or the EOF
   * marker, last and right after raw bytes.
   */
  ghost predicate SoundAt(d: seq<Segment>, i: nat)
    requires i < |d|
  {
    match d[i]
    case Str(t) => Valid(t) && (t != [] || i == |d| - 1)
    case Bytes(r) =>
      && 1 <= |r| <= 3 && !Valid(r)
      && if i + 1 < |d| && d[i + 1].UnexpectedEOF? then IsCharPrefix(r)
         else MaximalSubpart(r + Join(d[i + 1..], SegBytes), |r|)
    case UnexpectedEOF => i == |d| - 1 && i >= 1 && d[i - 1].Bytes?
  }

  ghost predicate SegmentsSound(d: seq<Segment>) {
    forall i :: 0 <= i < |d| ==> SoundAt(d, i)
  }

  /** Well-formed text, an error chunk maximal in what follows it, then sound segments. */
  lemma SoundAfterChunk(b: seq<byte>, v: nat, r: seq<byte>, rest: seq<Segment>)
    requires v <= |b| && Valid(b[..v])
    requires 1 <= |r| <= 3 && !Valid(r) && MaximalSubpart(r + Join(rest, SegBytes), |r|)
    requires SegmentsSound(rest)
    ensures SegmentsSound(Lead(b, v) + [Bytes(r)] + rest)
  {
    var head := Lead(b, v) + [Bytes(r)];
    var d := head + rest;
    var c := |head| - 1;
    assert d[c] == Bytes(r) && d[c + 1..] == rest;
    forall i | 0 <= i < |d| ensures SoundAt(d, i) {
      if i < c {
        assert d[i] == Str(b[..v]);
      } else if i == c {
        if c + 1 < |d| {
          assert d[c + 1] == rest[0] && SoundAt(rest, 0);
        }
      } else {
        var k := i - |head|;
        assert d[i] == rest[k] && SoundAt(rest, k);
        assert d[i + 1..] == rest[k + 1..];
        if k > 0 {
          assert d[i - 1] == rest[k - 1];
        }
        if k + 1 < |rest| {
          assert d[i + 1] == rest[k + 1];
        }
      }
    }
  }

  lemma {:induction false} DecodeSound(b: seq<byte>)
    ensures SegmentsSound(Decode(b).data)
    decreases |b|
  {
    hide Decode;
    hide FromUtf8;
    var check := FromUtf8(b);
    if check.WellFormed? {
      FromUtf8Valid(b);
      DecodeWhole(b);
    } else {
      var v := check.validUpTo;
      FromUtf8Malformed(b);
      var t := b[v..];
      if check.errorLen.Some? {
        var n := check.errorLen.value;
        DecodeChunk(b);
        NoCharNotValid(t, n);
        DecodeSound(t[n..]);
        DecodeRoundTrip(t[n..]);
        assert t[..n] + Join(Decode(t[n..]).data, SegBytes) == t;
        SoundAfterChunk(b, v, t[..n], Decode(t[n..]).data);
      } else {
        DecodeCut(b);
        NoCharNotValid(t, |t|);
        assert t[..|t|] == t;
        var d := Lead(b, v) + [Bytes(t), UnexpectedEOF];
        var c := |Lead(b, v)|;
        assert d[c] == Bytes(t) && d[c + 1] == UnexpectedEOF;
        forall i | 0 <= i < |d| ensures SoundAt(d, i) {
          if i < c {
            assert d[i] == Str(b[..v]);
          }
        }
      }
    }
  }

  /** `from_bytes` yields a single text segment exactly when the input is well-formed. */
  lemma DecodeText(b: seq<byte>)
    ensures Valid(b) <==> Decode(b) == MixedString([Str(b)])
  {
    hide Decode;
    hide FromUtf8;
    FromUtf8Valid(b);
    var check := FromUtf8(b);
    if check.WellFormed? {
      DecodeWhole(b);
    } else {
      var v := check.validUpTo;
      if check.errorLen.Some? { DecodeChunk(b); } else { DecodeCut(b); }
      assert Decode(b).data[|Lead(b, v)|].Bytes?;
    }
  }

  /** `from_bytes` keeps every segment's text well-formed. */
  lemma DecodeTextValid(b: seq<byte>)
    ensures TextValid(Decode(b))
  {
    DecodeSound(b);
    var d := Decode(b).data;
    forall i | 0 <= i < |d| && d[i].Str? ensures Valid(d[i].text) {
      assert SoundAt(d, i);
    }
  }

  // ---------------------------------------------------------------------------
  // Equality

  /** `PartialEq for Mixed`: equal kinds with equal contents. */
  function SegmentEq(a: Segment, b: Segment): (r: bool)
    ensures r <==> a == b
  {
    match a
    case UnexpectedEOF => b.UnexpectedEOF?
    case Str(s) => b.Str? && s == b.text
    case Bytes(x) => b.Bytes? && x == b.raw
  }

  /** `PartialEq for MixedString`: the segment lists agree element by element. */
  function MixedEq(a: MixedString, b: MixedString): (r: bool)
    ensures r <==> a == b
  {
    |b.data| == |a.data| && forall i :: 0 <= i < |a.data| ==> SegmentEq(b.data[i], a.data[i])
  }

  // ---------------------------------------------------------------------------
  // reverse

  /**
   * One segment reversed. Text is reversed by `g`, which stands for collecting the
   * extended grapheme clusters in reverse order; raw bytes are reversed byte by byte.
   */
  function SegReversed(x: Segment, g: seq<byte> -> seq<byte>): Segment {
    match x
    case Str(t) => Str(g(t))
    case Bytes(r) => Bytes(Rev(r))
    case UnexpectedEOF => UnexpectedEOF
  }

  /** `MixedString::reverse`: every segment reversed, then the segment order reversed. */
  function Reversed(m: MixedString, g: seq<byte> -> seq<byte>): (r: MixedString)
    ensures |r.data| == |m.data|
  {
    MixedString(Rev(seq(|m.data|, i requires 0 <= i < |m.data| => SegReversed(m.data[i], g))))
  }

  method Reverse(m: MixedString, g: seq<byte> -> seq<byte>) returns (r: MixedString)
    ensures r == Reversed(m, g)
  {
    var data := m.data;
    for i := 0 to |data|
      invariant |data| == |m.data|
      invariant forall k :: 0 <= k < i ==> data[k] == SegReversed(m.data[k], g)
      invariant forall k :: i <= k < |data| ==> data[k] == m.data[k]
    {
      match data[i]
      case Str(s) => data := data[i := Str(g(s))];
      case Bytes(b) => data := data[i := Bytes(Rev(b))];
      case UnexpectedEOF =>
    }
    r := MixedString(Rev(data));
  }

  /** `g` reverses every text segment of `m` byte by byte (true of ASCII text). */
  ghost predicate ReversesText(m: MixedString, g: seq<byte> -> seq<byte>) {
    forall i :: 0 <= i < |m.data| && m.data[i].Str? ==> g(m.data[i].text) == Rev(m.data[i].text)
  }

  lemma {:induction false} ReversedFlattenPrefix(d: seq<Segment>, g: seq<byte> -> seq<byte>)
    requires ReversesText(MixedString(d), g)
    ensures Flatten(Reversed(MixedString(d), g)) == Rev(Flatten(MixedString(d)))
    decreases |d|
  {
    if d != [] {
      var init := d[..|d| - 1];
      var x := d[|d| - 1];
      assert ReversesText(MixedString(init), g) by {
        forall i | 0 <= i < |init| && init[i].Str? ensures g(init[i].text) == Rev(init[i].text) {
          assert init[i] == d[i];
        }
      }
      ReversedFlattenPrefix(init, g);
      var r := Reversed(MixedString(d), g).data;
      assert r == [SegReversed(x, g)] + Reversed(MixedString(init), g).data;
      JoinCons(SegReversed(x, g), Reversed(MixedString(init), g).data, SegBytes);
      assert SegBytes(SegReversed(x, g)) == Rev(SegBytes(x));
      RevConcat(Join(init, SegBytes), SegBytes(x));
    }
  }

  /**
   * Where text reverses byte by byte, the bytes of the reversed string are the input's
   * bytes reversed; this is what the `*_reverse` tests check of `to_bytes`.
   */
  lemma ReversedFlatten(m: MixedString, g: seq<byte> -> seq<byte>)
    requires ReversesText(m, g)
    ensures Flatten(Reversed(m, g)) == Rev(Flatten(m))
  {
    ReversedFlattenPrefix(m.data, g);
  }

  /** Reversing twice restores the string when `g` undoes itself on its text. */
  lemma ReversedTwice(m: MixedString, g: seq<byte> -> seq<byte>)
    requires forall i :: 0 <= i < |m.data| && m.data[i].Str? ==> g(g(m.data[i].text)) == m.data[i].text
    ensures Reversed(Reversed(m, g), g) == m
  {
    var n := |m.data|;
    var r1 := Reversed(m, g);
    var r := Reversed(r1, g);
    forall i | 0 <= i < n ensures r.data[i] == m.data[i] {
      var x := m.data[i];
      assert r1.data[n - 1 - i] == SegReversed(x, g);
      assert r.data[i] == SegReversed(SegReversed(x, g), g);
      if x.Bytes? {
        RevRev(x.raw);
      }
    }
  }

  /** Reversal keeps text well-formed when `g` does. */
  lemma ReversedTextValid(m: MixedString, g: seq<byte> -> seq<byte>)
    requires TextValid(m)
    requires forall t :: Valid(t) ==> Valid(g(t))
    ensures TextValid(Reversed(m, g))
  {
    var r := Reversed(m, g);
    forall i | 0 <= i < |r.data| && r.data[i].Str? ensures Valid(r.data[i].text) {
      assert r.data[i] == SegReversed(m.data[|m.data| - 1 - i], g);
    }
  }

  // ---------------------------------------------------------------------------
  // Reversal by characters, the grapheme reversal on text whose clusters are single characters

  function UnitWidth(s: seq<byte>): (w: nat)
    requires s != []
    ensures 1 <= w <= |s|
  {
    var w := Width(s[0]);
    if 1 <= w <= |s| && IsChar(s[..w]) then w else 1
  }

  function CharsReversed(s: seq<byte>): (r: seq<byte>)
    ensures |r| == |s|
    decreases |s|
  {
    if s == [] then [] else var w := UnitWidth(s); CharsReversed(s[w..]) + s[..w]
  }

  lemma {:induction false} CharsReversedValid(s: seq<byte>)
    requires Valid(s)
    ensures Valid(CharsReversed(s))
    decreases |s|
  {
    if s != [] {
      var k := Width(s[0]);
      CharWidth(s[..k]);
      CharsReversedValid(s[k..]);
      CharValid(s[..k]);
      ValidConcat(CharsReversed(s[k..]), s[..k]);
    }
  }

  /** On ASCII text, reversing characters is reversing bytes. */
  lemma {:induction false} CharsReversedAscii(s: seq<byte>)
    requires forall i :: 0 <= i < |s| ==> s[i] < 0x80
    ensures CharsReversed(s) == Rev(s)
    decreases |s|
  {
    if s != [] {
      assert IsChar(s[..1]);
      CharsReversedAscii(s[1..]);
      assert s == s[..1] + s[1..];
      RevConcat(s[..1], s[1..]);
    }
  }

  // ---------------------------------------------------------------------------
  // The unit tests of mixed.rs, stated for every input of the tested shape

  predicate IsAscii(s: seq<byte>) {
    forall i :: 0 <= i < |s| ==> s[i] < 0x80
  }

  /**
   * No CR directly followed by LF: the one pair of ASCII characters that forms a single
   * grapheme cluster, so on ASCII text without it clusters are single bytes.
   */
  predicate NoCrLf(s: seq<byte>) {
    forall i :: 0 <= i < |s| - 1 ==> !(s[i] == 13 && s[i + 1] == 10)
  }

  /** U+1F937, the emoji of `reverse_emoji`, in UTF-8. */
  const Emoji: seq<byte> := [0xF0, 0x9F, 0xA4, 0xB7]

  function Ascii(s: string): (b: seq<byte>)
    requires forall i :: 0 <= i < |s| ==> s[i] as int < 0x80
    ensures |b| == |s| && IsAscii(b)
  {
    seq(|s|, i requires 0 <= i < |s| => s[i] as int)
  }

  lemma Render1(x: Segment)
    ensures Render(MixedString([x])) == SegText(x)
  {
    JoinCons(x, [], SegText);
    assert [x] + [] == [x];
  }

  lemma Render3(x: Segment, y: Segment, z: Segment)
    ensures Render(MixedString([x, y, z])) == SegText(x) + SegText(y) + SegText(z)
  {
    JoinCons(x, [y, z], SegText);
    JoinCons(y, [z], SegText);
    JoinCons(z, [], SegText);
    assert [x] + [y, z] == [x, y, z] && [y] + [z] == [y, z] && [z] + [] == [z];
  }

  lemma Escapes1(x: byte)
    ensures Escapes([x]) == Escape(x)
  {
    assert [x][..0] == [];
  }

  /** The four escapes the tests print. */
  lemma EscapeExamples()
    ensures Escape(0x80) == Ascii("\\u{80}")
    ensures Escape(0x81) == Ascii("\\u{81}")
    ensures Escape(0xF0) == Ascii("\\u{f0}")
  {
  }

  lemma Reversed1(x: Segment, g: seq<byte> -> seq<byte>)
    ensures Reversed(MixedString([x]), g).data == [SegReversed(x, g)]
  {
  }

  lemma Reversed3(x: Segment, y: Segment, z: Segment, g: seq<byte> -> seq<byte>)
    ensures Reversed(MixedString([x, y, z]), g).data == [SegReversed(z, g), SegReversed(y, g), SegReversed(x, g)]
  {
  }

  lemma DecodeAscii(b: seq<byte>)
    requires IsAscii(b)
    ensures Decode(b) == MixedString([Str(b)])
  {
    AsciiValid(b);
    DecodeText(b);
  }

  /** `normal`, `normal_reverse`: ASCII text is one text segment, printed and reversed as is. */
  lemma TestNormal(b: seq<byte>)
    requires IsAscii(b) && NoCrLf(b)
    ensures Decode(b) == MixedString([Str(b)])
    ensures Render(Decode(b)) == b && Flatten(Decode(b)) == b
    ensures Render(Reversed(Decode(b), CharsReversed)) == Rev(b)
  {
    DecodeAscii(b);
    DecodeRoundTrip(b);
    hide Decode;
    Render1(Str(b));
    CharsReversedAscii(b);
    Reversed1(Str(b), CharsReversed);
    Render1(Str(Rev(b)));
  }

  /** A continuation byte cannot start a character: an error chunk of one byte. */
  lemma NotLead(x: byte, rest: seq<byte>)
    requires 0x80 <= x <= 0xBF
    ensures FromUtf8([x] + rest) == Malformed(0, Some(1))
  {
    var s := [x] + rest;
    assert StepAt(s, 0) == Invalid(1);
  }

  /** A stray continuation byte decodes to one raw byte, then the rest. */
  lemma DecodeStray(x: byte, rest: seq<byte>)
    requires 0x80 <= x <= 0xBF
    ensures Decode([x] + rest).data == [Bytes([x])] + Decode(rest).data
  {
    NotLead(x, rest);
    var b := [x] + rest;
    hide Decode;
    hide FromUtf8;
    assert b[0..][..1] == [x] && b[0..][1..] == rest;
    DecodeChunk(b);
  }

  /** `invalid`, `invalid_reverse`: two stray continuation bytes, then the empty rest as text. */
  lemma TestInvalid(x: byte, y: byte)
    requires 0x80 <= x <= 0xBF && 0x80 <= y <= 0xBF
    ensures Decode([x, y]) == MixedString([Bytes([x]), Bytes([y]), Str([])])
    ensures Render(Decode([x, y])) == Escape(x) + Escape(y)
    ensures Render(Reversed(Decode([x, y]), CharsReversed)) == Escape(y) + Escape(x)
  {
    DecodeStray(x, [y]);
    DecodeStray(y, []);
    DecodeAscii([]);
    hide Decode;
    assert [x] + [y] == [x, y] && [y] + [] == [y];
    assert Decode([x, y]).data == [Bytes([x]), Bytes([y]), Str([])];
    Render3(Bytes([x]), Bytes([y]), Str([]));
    Escapes1(x);
    Escapes1(y);
    Reversed3(Bytes([x]), Bytes([y]), Str([]), CharsReversed);
    assert Rev([x]) == [x] && Rev([y]) == [y];
    Render3(Str([]), Bytes([y]), Bytes([x]));
  }
  /** After well-formed `hello`, the validator looks at the byte `f` next. */
  lemma StopAfter(hello: seq<byte>, f: byte, rest: seq<byte>)
    requires IsAscii(hello)
    ensures FromUtf8(hello + [f] + rest) == Scan(hello + [f] + rest, |hello|)
  {
    var b := hello + [f] + rest;
    AsciiValid(hello);
    assert b[0..|hello|] == hello;
    ScanSkipValid(b, 0, |hello|);
  }

  /** A four-byte lead followed by an ASCII byte is an error chunk of one byte. */
  lemma MixedScan(hello: seq<byte>, f: byte, a: byte)
    requires IsAscii(hello) && 0xF0 <= f <= 0xF4 && a < 0x80
    ensures FromUtf8(hello + [f, a]) == Malformed(|hello|, Some(1))
  {
    var b := hello + [f, a];
    assert hello + [f] + [a] == b;
    StopAfter(hello, f, [a]);
    assert StepAt(b, |hello|) == Invalid(1);
  }

  /** A leading byte at the very end of the input is a cut character. */
  lemma EofScan(hello: seq<byte>, f: byte)
    requires IsAscii(hello) && Width(f) >= 2
    ensures FromUtf8(hello + [f]) == Malformed(|hello|, None)
  {
    var b := hello + [f];
    assert hello + [f] + [] == b;
    StopAfter(hello, f, []);
    assert StepAt(b, |hello|) == Truncated;
  }

  /**
   * `mixed`, `mixed_reverse`: text, a leading byte of a four-byte character that the
   * next (ASCII) byte does not continue, and that byte as text.
   */
  lemma TestMixed(hello: seq<byte>, f: byte, a: byte)
    requires IsAscii(hello) && NoCrLf(hello) && hello != [] && 0xF0 <= f <= 0xF4 && a < 0x80
    ensures Decode(hello + [f, a]) == MixedString([Str(hello), Bytes([f]), Str([a])])
    ensures Render(Decode(hello + [f, a])) == hello + Escape(f) + [a]
    ensures Render(Reversed(Decode(hello + [f, a]), CharsReversed)) == [a] + Escape(f) + Rev(hello)
  {
    var b := hello + [f, a];
    var v := |hello|;
    MixedScan(hello, f, a);
    assert IsAscii([a]);
    DecodeAscii([a]);
    hide Decode;
    hide FromUtf8;
    assert b[..v] == hello && b[v..][..1] == [f] && b[v..][1..] == [a];
    DecodeChunk(b);
    assert Decode(b).data == [Str(hello), Bytes([f]), Str([a])];
    Render3(Str(hello), Bytes([f]), Str([a]));
    Escapes1(f);
    CharsReversedAscii(hello);
    CharsReversedAscii([a]);
    Reversed3(Str(hello), Bytes([f]), Str([a]), CharsReversed);
    assert Rev([f]) == [f] && Rev([a]) == [a];
    Render3(Str([a]), Bytes([f]), Str(Rev(hello)));
  }

  /** `eof`, `eof_reverse`: text, then a leading byte at the very end of the input. */
  lemma TestEof(hello: seq<byte>, f: byte)
    requires IsAscii(hello) && NoCrLf(hello) && hello != [] && Width(f) >= 2
    ensures Decode(hello + [f]) == MixedString([Str(hello), Bytes([f]), UnexpectedEOF])
    ensures Render(Decode(hello + [f])) == hello + Escape(f) + EofMark
    ensures Render(Reversed(Decode(hello + [f]), CharsReversed)) == EofMark + Escape(f) + Rev(hello)
  {
    var b := hello + [f];
    var v := |hello|;
    EofScan(hello, f);
    hide Decode;
    hide FromUtf8;
    assert b[..v] == hello && b[v..] == [f];
    DecodeCut(b);
    assert Decode(b).data == [Str(hello), Bytes([f]), UnexpectedEOF];
    Render3(Str(hello), Bytes([f]), UnexpectedEOF);
    Escapes1(f);
    CharsReversedAscii(hello);
    Reversed3(Str(hello), Bytes([f]), UnexpectedEOF, CharsReversed);
    assert Rev([f]) == [f];
    Render3(UnexpectedEOF, Bytes([f]), Str(Rev(hello)));
  }

  /**
   * `reverse_emoji`: reversing characters keeps a four-byte character (U+1F937 is
   * F0 9F A4 B7) in one piece after the reversed ASCII text before it.
   */
  lemma TestReverseEmoji(digits: seq<byte>)
    requires IsAscii(digits) && NoCrLf(digits)
    ensures Render(Reversed(MixedString([Str(digits + Emoji)]), CharsReversed)) == Emoji + Rev(digits)
  {
    EmojiIsChar();
    ReversedCharsAppend(digits, Emoji);
    Reversed1(Str(digits + Emoji), CharsReversed);
    Render1(Str(CharsReversed(digits + Emoji)));
  }

  lemma {:induction false} ReversedCharsAppend(digits: seq<byte>, c: seq<byte>)
    requires IsAscii(digits) && |c| == 4 && IsChar(c)
    ensures CharsReversed(digits + c) == c + Rev(digits)
    decreases |digits|
  {
    var s := digits + c;
    if digits == [] {
      assert s == c && s[..4] == c && s[4..] == [];
      assert UnitWidth(s) == 4;
    } else {
      assert s[0] == digits[0] < 0x80;
      assert UnitWidth(s) == 1;
      assert s[1..] == digits[1..] + c && s[..1] == digits[..1];
      calc {
        CharsReversed(s);
        CharsReversed(s[1..]) + s[..1];
        { ReversedCharsAppend(digits[1..], c); }
        c + Rev(digits[1..]) + digits[..1];
        { RevConcat(digits[..1], digits[1..]); assert digits == digits[..1] + digits[1..]; }
        c + Rev(digits);
      }
    }
  }

  /** The emoji of `reverse_emoji` is one four-byte character. */
  lemma EmojiIsChar()
    ensures IsChar(Emoji)
  {
  }
}
