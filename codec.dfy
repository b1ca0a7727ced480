/** The JSON values that cache files and the control file are made of
    (encoding/json, RFC 8259), reduced to what those files contain: strings,
    integers, booleans, null and bracketed lists.

    Every encoder here is self-delimiting (its decoder finds where the value ends
    and hands back the rest of the input untouched) and never emits a raw newline,
    the two facts that the cache-entry layout depends on. Strings are escaped as
    JSON escapes quote, backslash and newline; the other escapes encoding/json
    applies (control characters, '<', '>', '&', invalid UTF-8) are not modelled. */
module Codec {
  import opened Common
  import Numerals

  const Newline: Byte := 10
  const Quote: Byte := 34
  const Comma: Byte := 44
  const Colon: Byte := 58
  const OpenBracket: Byte := 91
  const Backslash: Byte := 92
  const CloseBracket: Byte := 93
  const LetterN: Byte := 110
  const OpenBrace: Byte := 123
  const CloseBrace: Byte := 125

  const TrueLit: Bytes := [116, 114, 117, 101]  // true
  const FalseLit: Bytes := [102, 97, 108, 115, 101]  // false
  const NullLit: Bytes := [110, 117, 108, 108]  // null

  /** The blanks json.Decoder skips before a value: space, tab, newline, carriage return. */
  predicate IsBlank(b: Byte)
  {
    b == 32 || b == 9 || b == Newline || b == 13
  }

  /** r is what is left of t once a prefix of t has been consumed. */
  predicate IsTail(r: Bytes, t: Bytes)
  {
    |r| <= |t| && r == t[|t| - |r|..]
  }

  lemma TailOfTail(r: Bytes, m: Bytes, t: Bytes)
    requires IsTail(r, m) && IsTail(m, t)
    ensures IsTail(r, t)
  {
    assert t[|t| - |m|..][|m| - |r|..] == t[|t| - |r|..];
  }

  /** A decoder that hands back what follows the value it read. */
  ghost predicate Consumes<T>(dec: Bytes -> Option<(T, Bytes)>)
  {
    forall u :: dec(u).Some? ==> IsTail(dec(u).value.1, u)
  }

  function SkipBlanks(t: Bytes): (r: Bytes)
    ensures |r| <= |t| && r == t[|t| - |r|..]
    ensures forall i :: 0 <= i < |t| - |r| ==> IsBlank(t[i])
    ensures r == [] || !IsBlank(r[0])
  {
    if t != [] && IsBlank(t[0]) then SkipBlanks(t[1..]) else t
  }

  /** Consumes the literal lit at the front of t. */
  function Expect(lit: Bytes, t: Bytes): (r: Option<Bytes>)
    ensures r.Some? <==> (|lit| <= |t| && t[..|lit|] == lit)
    ensures r.Some? ==> r.value == t[|lit|..]
  {
    if |lit| <= |t| && t[..|lit|] == lit then Some(t[|lit|..]) else None
  }

  lemma Assoc(a: Bytes, b: Bytes, c: Bytes)
    ensures (a + b) + c == a + (b + c)
  {
  }

  lemma ExpectLit(lit: Bytes, rest: Bytes)
    ensures Expect(lit, lit + rest) == Some(rest)
  {
    assert (lit + rest)[..|lit|] == lit;
    assert (lit + rest)[|lit|..] == rest;
  }

  // ---------------------------------------------------------------- strings

  function EscapeByte(b: Byte): (e: Bytes)
    ensures 1 <= |e| <= 2 && Newline !in e
  {
    if b == Quote then [Backslash, Quote]
    else if b == Backslash then [Backslash, Backslash]
    else if b == Newline then [Backslash, LetterN]
    else [b]
  }

  function Escape(s: Str): (e: Bytes)
    ensures Newline !in e
  {
    if s == [] then [] else EscapeByte(s[0]) + Escape(s[1..])
  }

  function EncodeStr(s: Str): (e: Bytes)
    ensures |e| >= 2 && e[0] == Quote && Newline !in e
  {
    [Quote] + Escape(s) + [Quote]
  }

  /** The byte an escape sequence `\c` stands for. */
  function Unescaped(c: Byte): Option<Byte>
  {
    if c == LetterN then Some(Newline)
    else if c == Quote || c == Backslash then Some(c)
    else None
  }

  /** Reads string contents up to the closing quote; returns them and what follows the quote. */
  function UnescapeBody(t: Bytes): Option<(Str, Bytes)>
    decreases |t|
  {
    if t == [] then None
    else if t[0] == Quote then Some(([], t[1..]))
    else if t[0] == Backslash then
      if |t| < 2 then None
      else
        var c :- Unescaped(t[1]);
        var p :- UnescapeBody(t[2..]);
        Some(([c] + p.0, p.1))
    else
      var p :- UnescapeBody(t[1..]);
      Some(([t[0]] + p.0, p.1))
  }

  function DecodeStr(t: Bytes): Option<(Str, Bytes)>
  {
    if |t| > 0 && t[0] == Quote then UnescapeBody(t[1..]) else None
  }

  lemma {:induction false} UnescapeEscape(s: Str, rest: Bytes)
    ensures UnescapeBody(Escape(s) + [Quote] + rest) == Some((s, rest))
  {
    var t := Escape(s) + [Quote] + rest;
    if s == [] {
      assert t == [Quote] + rest;
    } else {
      var tail := Escape(s[1..]) + [Quote] + rest;
      assert t == EscapeByte(s[0]) + tail;
      UnescapeEscape(s[1..], rest);
      assert [s[0]] + s[1..] == s;
      if s[0] == Quote || s[0] == Backslash || s[0] == Newline {
        assert t[2..] == tail;
      } else {
        assert t[1..] == tail;
      }
    }
  }

  /** A string decodes back from its encoding whatever follows it. */
  lemma StrRoundTrip(s: Str, rest: Bytes)
    ensures DecodeStr(EncodeStr(s) + rest) == Some((s, rest))
  {
    var t := EncodeStr(s) + rest;
    assert t[1..] == Escape(s) + [Quote] + rest;
    UnescapeEscape(s, rest);
  }

  lemma AllStrRoundTrip()
    ensures forall s, rest :: DecodeStr(EncodeStr(s) + rest) == Some((s, rest))
  {
    forall s, rest ensures DecodeStr(EncodeStr(s) + rest) == Some((s, rest)) {
      StrRoundTrip(s, rest);
    }
  }

  // ---------------------------------------------------------------- integers

  predicate IsNumberByte(b: Byte)
  {
    b == Numerals.Minus || 48 <= b <= 57
  }

  /** The length of the run of sign and digit bytes at the front of t. */
  function NumberLength(t: Bytes): (k: nat)
    ensures k <= |t|
  {
    if t != [] && IsNumberByte(t[0]) then 1 + NumberLength(t[1..]) else 0
  }

  function EncodeInt(n: int): (e: Bytes)
    ensures |e| >= 1 && forall i :: 0 <= i < |e| ==> IsNumberByte(e[i])
  {
    Numerals.FormatInt(n, 10)
  }

  function DecodeInt(t: Bytes): Option<(int, Bytes)>
  {
    var k := NumberLength(t);
    var n :- Numerals.ParseInt(t[..k], 10);
    Some((n, t[k..]))
  }

  lemma {:induction false} NumberLengthOf(p: Bytes, rest: Bytes)
    requires forall i :: 0 <= i < |p| ==> IsNumberByte(p[i])
    requires rest == [] || !IsNumberByte(rest[0])
    ensures NumberLength(p + rest) == |p|
  {
    if p != [] {
      assert (p + rest)[1..] == p[1..] + rest;
      NumberLengthOf(p[1..], rest);
    } else {
      assert p + rest == rest;
    }
  }

  /** An integer decodes back from its encoding when a non-numeric byte (or nothing) follows. */
  lemma IntRoundTrip(n: int, rest: Bytes)
    requires rest == [] || !IsNumberByte(rest[0])
    ensures DecodeInt(EncodeInt(n) + rest) == Some((n, rest))
  {
    var e := EncodeInt(n);
    NumberLengthOf(e, rest);
    assert (e + rest)[..|e|] == e;
    assert (e + rest)[|e|..] == rest;
    Numerals.ParseFormatInt(n, 10);
  }

  // ---------------------------------------------------------------- booleans

  function EncodeBool(b: bool): Bytes
  {
    if b then TrueLit else FalseLit
  }

  function DecodeBool(t: Bytes): Option<(bool, Bytes)>
  {
    if Expect(TrueLit, t).Some? then Some((true, t[4..]))
    else if Expect(FalseLit, t).Some? then Some((false, t[5..]))
    else None
  }

  lemma BoolRoundTrip(b: bool, rest: Bytes)
    ensures DecodeBool(EncodeBool(b) + rest) == Some((b, rest))
  {
    ExpectLit(EncodeBool(b), rest);
    if !b {
      assert TrueLit[0] != FalseLit[0];
      assert (EncodeBool(b) + rest)[0] == FalseLit[0];
    }
  }

  // ---------------------------------------------------------------- lists

  /** A non-empty list's items, separated by commas, then the closing bracket. */
  function EncodeItems<T>(xs: seq<T>, enc: T -> Bytes, close: Byte): Bytes
    requires |xs| >= 1
  {
    enc(xs[0]) + (if |xs| == 1 then [close] else [Comma] + EncodeItems(xs[1..], enc, close))
  }

  /** `[a,b,c]` (open = '[') or `{a,b,c}` (open = '{'). */
  function EncodeSeq<T>(xs: seq<T>, enc: T -> Bytes, open: Byte, close: Byte): Bytes
  {
    [open] + (if xs == [] then [close] else EncodeItems(xs, enc, close))
  }

  function DecodeItems<T>(t: Bytes, dec: Bytes -> Option<(T, Bytes)>, close: Byte): Option<(seq<T>, Bytes)>
    decreases |t|
  {
    var p :- dec(t);
    if |p.1| >= |t| || p.1 == [] then None
    else if p.1[0] == close then Some(([p.0], p.1[1..]))
    else if p.1[0] == Comma then
      var q :- DecodeItems(p.1[1..], dec, close);
      Some(([p.0] + q.0, q.1))
    else None
  }

  function DecodeSeq<T>(t: Bytes, dec: Bytes -> Option<(T, Bytes)>, open: Byte, close: Byte): Option<(seq<T>, Bytes)>
  {
    if |t| >= 2 && t[0] == open && t[1] == close then Some(([], t[2..]))
    else if |t| >= 1 && t[0] == open then DecodeItems(t[1..], dec, close)
    else None
  }

  /** What an item codec must satisfy for lists of its items to round-trip. */
  ghost predicate ItemCodec<T(!new)>(enc: T -> Bytes, dec: Bytes -> Option<(T, Bytes)>, close: Byte)
  {
    && (forall x :: |enc(x)| >= 1 && enc(x)[0] != close && enc(x)[0] != Comma)
    && (forall x, rest :: dec(enc(x) + rest) == Some((x, rest)))
  }

  lemma {:induction false} ItemsRoundTrip<T(!new)>(xs: seq<T>, enc: T -> Bytes, dec: Bytes -> Option<(T, Bytes)>, close: Byte, rest: Bytes)
    requires |xs| >= 1 && close != Comma
    requires ItemCodec(enc, dec, close)
    ensures DecodeItems(EncodeItems(xs, enc, close) + rest, dec, close) == Some((xs, rest))
  {
    var t := EncodeItems(xs, enc, close) + rest;
    if |xs| == 1 {
      assert t == enc(xs[0]) + ([close] + rest);
      assert dec(t) == Some((xs[0], [close] + rest));
      assert xs == [xs[0]];
    } else {
      var tail := EncodeItems(xs[1..], enc, close) + rest;
      assert t == enc(xs[0]) + ([Comma] + tail);
      assert dec(t) == Some((xs[0], [Comma] + tail));
      assert ([Comma] + tail)[1..] == tail;
      ItemsRoundTrip(xs[1..], enc, dec, close, rest);
      assert [xs[0]] + xs[1..] == xs;
    }
  }

  /** A bracketed list decodes back from its encoding whatever follows it. */
  lemma SeqRoundTrip<T(!new)>(xs: seq<T>, enc: T -> Bytes, dec: Bytes -> Option<(T, Bytes)>, open: Byte, close: Byte, rest: Bytes)
    requires close != Comma
    requires ItemCodec(enc, dec, close)
    ensures DecodeSeq(EncodeSeq(xs, enc, open, close) + rest, dec, open, close) == Some((xs, rest))
  {
    var t := EncodeSeq(xs, enc, open, close) + rest;
    if xs == [] {
      assert t == [open, close] + rest;
    } else {
      var items := EncodeItems(xs, enc, close);
      assert t == [open] + (items + rest);
      assert items[0] == enc(xs[0])[0];
      ItemsRoundTrip(xs, enc, dec, close, rest);
      assert t[1..] == items + rest;
    }
  }

  // ---------------------------------------------------------------- lists of strings

  function EncodeStrs(xs: seq<Str>): (e: Bytes)
  {
    EncodeSeq(xs, EncodeStr, OpenBracket, CloseBracket)
  }

  function DecodeStrs(t: Bytes): Option<(seq<Str>, Bytes)>
  {
    DecodeSeq(t, DecodeStr, OpenBracket, CloseBracket)
  }

  lemma StrsRoundTrip(xs: seq<Str>, rest: Bytes)
    ensures DecodeStrs(EncodeStrs(xs) + rest) == Some((xs, rest))
  {
    AllStrRoundTrip();
    SeqRoundTrip(xs, EncodeStr, DecodeStr, OpenBracket, CloseBracket, rest);
  }

  /** No encoded value contains a raw newline, so json.Encoder's trailing newline
      is the only one between two encoded values. */
  lemma {:induction false} ItemsNoNewline<T>(xs: seq<T>, enc: T -> Bytes, close: Byte)
    requires |xs| >= 1 && close != Newline
    requires forall x :: Newline !in enc(x)
    ensures Newline !in EncodeItems(xs, enc, close)
  {
    if |xs| > 1 {
      ItemsNoNewline(xs[1..], enc, close);
    }
  }

  lemma SeqNoNewline<T>(xs: seq<T>, enc: T -> Bytes, open: Byte, close: Byte)
    requires open != Newline && close != Newline
    requires forall x :: Newline !in enc(x)
    ensures Newline !in EncodeSeq(xs, enc, open, close)
  {
    if xs != [] {
      ItemsNoNewline(xs, enc, close);
    }
  }

  // ---------------------------------------------------------------- objects

  /** http.Header as encoding/json writes it: (name, values) pairs in key order. */
  type Header = seq<(Str, seq<Str>)>

  function EncodeField(f: (Str, seq<Str>)): Bytes
  {
    EncodeStr(f.0) + [Colon] + EncodeStrs(f.1)
  }

  function DecodeField(t: Bytes): Option<((Str, seq<Str>), Bytes)>
  {
    var k :- DecodeStr(t);
    var t1 :- Expect([Colon], k.1);
    var vs :- DecodeStrs(t1);
    Some(((k.0, vs.0), vs.1))
  }

  lemma FieldRoundTrip(f: (Str, seq<Str>), rest: Bytes)
    ensures DecodeField(EncodeField(f) + rest) == Some((f, rest))
  {
    var s1 := EncodeStrs(f.1) + rest;
    assert EncodeField(f) + rest == EncodeStr(f.0) + ([Colon] + s1);
    StrRoundTrip(f.0, [Colon] + s1);
    ExpectLit([Colon], s1);
    StrsRoundTrip(f.1, rest);
  }

  /** A header is a JSON object from names to lists of values. */
  function EncodeHeader(h: Header): Bytes
  {
    EncodeSeq(h, EncodeField, OpenBrace, CloseBrace)
  }

  function DecodeHeader(t: Bytes): Option<(Header, Bytes)>
  {
    DecodeSeq(t, DecodeField, OpenBrace, CloseBrace)
  }

  lemma HeaderRoundTrip(h: Header, rest: Bytes)
    ensures DecodeHeader(EncodeHeader(h) + rest) == Some((h, rest))
  {
    forall f, r ensures DecodeField(EncodeField(f) + r) == Some((f, r)) {
      FieldRoundTrip(f, r);
    }
    SeqRoundTrip(h, EncodeField, DecodeField, OpenBrace, CloseBrace, rest);
  }

  /** The member values a Go struct with string, int, bool, []string, http.Header
      and []byte-or-nil fields encodes to. */
  datatype Value =
    | Text(s: Str)
    | Number(n: int)
    | Flag(b: bool)
    | Texts(ss: seq<Str>)
    | Fields(h: Header)
    | MaybeText(p: Option<Str>)

  /** What the decoder expects at a member, fixed by the struct's field type. */
  datatype Kind = TextKind | NumberKind | FlagKind | TextsKind | FieldsKind | MaybeTextKind

  function KindOf(v: Value): Kind
  {
    match v
    case Text(_) => TextKind
    case Number(_) => NumberKind
    case Flag(_) => FlagKind
    case Texts(_) => TextsKind
    case Fields(_) => FieldsKind
    case MaybeText(_) => MaybeTextKind
  }

  function KindsOf(vs: seq<Value>): (ks: seq<Kind>)
    ensures |ks| == |vs| && forall i :: 0 <= i < |vs| ==> ks[i] == KindOf(vs[i])
  {
    seq(|vs|, i requires 0 <= i < |vs| => KindOf(vs[i]))
  }

  function EncodeValue(v: Value): (e: Bytes)
    ensures |e| >= 1 && !IsBlank(e[0])
  {
    match v
    case Text(s) => EncodeStr(s)
    case Number(n) => EncodeInt(n)
    case Flag(b) => EncodeBool(b)
    case Texts(ss) => EncodeStrs(ss)
    case Fields(h) => EncodeHeader(h)
    case MaybeText(p) => if p.None? then NullLit else EncodeStr(p.value)
  }

  function DecodeValue(k: Kind, t: Bytes): Option<(Value, Bytes)>
  {
    match k
    case TextKind => var p :- DecodeStr(t); Some((Text(p.0), p.1))
    case NumberKind => var p :- DecodeInt(t); Some((Number(p.0), p.1))
    case FlagKind => var p :- DecodeBool(t); Some((Flag(p.0), p.1))
    case TextsKind => var p :- DecodeStrs(t); Some((Texts(p.0), p.1))
    case FieldsKind => var p :- DecodeHeader(t); Some((Fields(p.0), p.1))
    case MaybeTextKind =>
      if Expect(NullLit, t).Some? then Some((MaybeText(None), t[|NullLit|..]))
      else
        var p :- DecodeStr(t);
        Some((MaybeText(Some(p.0)), p.1))
  }

  /** A value decodes back, by its kind, from its encoding when a byte that
      cannot continue a number (or nothing) follows. */
  lemma ValueRoundTrip(v: Value, rest: Bytes)
    requires rest == [] || !IsNumberByte(rest[0])
    ensures DecodeValue(KindOf(v), EncodeValue(v) + rest) == Some((v, rest))
  {
    match v
    case Text(s) => StrRoundTrip(s, rest);
    case Number(n) => IntRoundTrip(n, rest);
    case Flag(b) => BoolRoundTrip(b, rest);
    case Texts(ss) => StrsRoundTrip(ss, rest);
    case Fields(h) => HeaderRoundTrip(h, rest);
    case MaybeText(p) => MaybeTextRoundTrip(p, rest);
  }

  lemma MaybeTextRoundTrip(p: Option<Str>, rest: Bytes)
    ensures DecodeValue(MaybeTextKind, EncodeValue(MaybeText(p)) + rest) == Some((MaybeText(p), rest))
  {
    if p.None? {
      ExpectLit(NullLit, rest);
    } else {
      StrRoundTrip(p.value, rest);
      assert (EncodeStr(p.value) + rest)[0] == Quote != NullLit[0];
    }
  }

  /** `"key":value` for each member, comma-separated. */
  function EncodeMembers(keys: seq<Str>, vs: seq<Value>): Bytes
    requires |keys| == |vs|
    decreases |keys|
  {
    if keys == [] then []
    else
      EncodeStr(keys[0]) + [Colon] + EncodeValue(vs[0])
      + (if |keys| == 1 then [] else [Comma] + EncodeMembers(keys[1..], vs[1..]))
  }

  /** Reads the members named keys, in order, each as its kind. */
  function DecodeMembers(keys: seq<Str>, kinds: seq<Kind>, t: Bytes): Option<(seq<Value>, Bytes)>
    requires |keys| == |kinds|
    decreases |keys|
  {
    if keys == [] then Some(([], t))
    else
      var t1 :- Expect(EncodeStr(keys[0]) + [Colon], t);
      var v :- DecodeValue(kinds[0], t1);
      if |keys| == 1 then Some(([v.0], v.1))
      else
        var t2 :- Expect([Comma], v.1);
        var more :- DecodeMembers(keys[1..], kinds[1..], t2);
        Some(([v.0] + more.0, more.1))
  }

  lemma {:induction false} MembersRoundTrip(keys: seq<Str>, vs: seq<Value>, rest: Bytes)
    requires |keys| == |vs|
    requires rest == [] || !IsNumberByte(rest[0])
    ensures DecodeMembers(keys, KindsOf(vs), EncodeMembers(keys, vs) + rest) == Some((vs, rest))
    decreases |keys|
  {
    if keys != [] {
      var key := EncodeStr(keys[0]) + [Colon];
      var tail := if |keys| == 1 then [] else [Comma] + EncodeMembers(keys[1..], vs[1..]);
      var after := tail + rest;
      var ks := KindsOf(vs);
      assert ks[0] == KindOf(vs[0]);
      assert EncodeMembers(keys, vs) + rest == key + (EncodeValue(vs[0]) + after) by {
        Assoc(key, EncodeValue(vs[0]), tail);
        Assoc(key + EncodeValue(vs[0]), tail, rest);
        Assoc(key, EncodeValue(vs[0]), after);
      }
      ExpectLit(key, EncodeValue(vs[0]) + after);
      var t := EncodeMembers(keys, vs) + rest;
      assert Expect(key, t) == Some(EncodeValue(vs[0]) + after);
      if |keys| == 1 {
        assert after == rest;
        ValueRoundTrip(vs[0], rest);
        assert DecodeValue(ks[0], EncodeValue(vs[0]) + after) == Some((vs[0], rest));
        assert [vs[0]] == vs;
      } else {
        var more := EncodeMembers(keys[1..], vs[1..]) + rest;
        assert after == [Comma] + more by { Assoc([Comma], EncodeMembers(keys[1..], vs[1..]), rest); }
        ValueRoundTrip(vs[0], after);
        ExpectLit([Comma], more);
        MembersRoundTrip(keys[1..], vs[1..], rest);
        assert ks[1..] == KindsOf(vs[1..]);
        assert DecodeValue(ks[0], EncodeValue(vs[0]) + after) == Some((vs[0], after));
        assert Expect([Comma], after) == Some(more);
        assert DecodeMembers(keys[1..], ks[1..], more) == Some((vs[1..], rest));
        assert [vs[0]] + vs[1..] == vs;
      }
    } else {
      assert EncodeMembers(keys, vs) + rest == rest;
    }
  }

  /** A JSON object whose members are keys with the values vs, in that order. */
  function EncodeObject(keys: seq<Str>, vs: seq<Value>): (e: Bytes)
    requires |keys| == |vs|
    ensures |e| >= 2 && e[0] == OpenBrace
  {
    [OpenBrace] + EncodeMembers(keys, vs) + [CloseBrace]
  }

  function DecodeObject(keys: seq<Str>, kinds: seq<Kind>, t: Bytes): Option<(seq<Value>, Bytes)>
    requires |keys| == |kinds|
  {
    var t1 :- Expect([OpenBrace], t);
    var m :- DecodeMembers(keys, kinds, t1);
    var t2 :- Expect([CloseBrace], m.1);
    Some((m.0, t2))
  }

  /** An object is self-delimiting: it decodes back whatever follows it. */
  lemma ObjectRoundTrip(keys: seq<Str>, vs: seq<Value>, rest: Bytes)
    requires |keys| == |vs|
    ensures DecodeObject(keys, KindsOf(vs), EncodeObject(keys, vs) + rest) == Some((vs, rest))
  {
    var m := EncodeMembers(keys, vs);
    var close := [CloseBrace] + rest;
    assert EncodeObject(keys, vs) + rest == [OpenBrace] + (m + close) by {
      Assoc([OpenBrace], m, [CloseBrace]);
      Assoc([OpenBrace] + m, [CloseBrace], rest);
      Assoc([OpenBrace], m, close);
    }
    ExpectLit([OpenBrace], m + close);
    MembersRoundTrip(keys, vs, close);
    ExpectLit([CloseBrace], rest);
  }

  /** No encoded object contains a raw newline. */
  lemma {:induction false} MembersNoNewline(keys: seq<Str>, vs: seq<Value>)
    requires |keys| == |vs|
    ensures Newline !in EncodeMembers(keys, vs)
    decreases |keys|
  {
    if keys != [] {
      ValueNoNewline(vs[0]);
      if |keys| > 1 {
        MembersNoNewline(keys[1..], vs[1..]);
      }
    }
  }

  lemma ValueNoNewline(v: Value)
    ensures Newline !in EncodeValue(v)
  {
    match v
    case Text(s) =>
    case Number(n) =>
    case Flag(b) =>
    case Texts(ss) => SeqNoNewline(ss, EncodeStr, OpenBracket, CloseBracket);
    case Fields(h) =>
      forall f ensures Newline !in EncodeField(f) {
        SeqNoNewline(f.1, EncodeStr, OpenBracket, CloseBracket);
      }
      SeqNoNewline(h, EncodeField, OpenBrace, CloseBrace);
    case MaybeText(p) =>
  }

  lemma ObjectNoNewline(keys: seq<Str>, vs: seq<Value>)
    requires |keys| == |vs|
    ensures Newline !in EncodeObject(keys, vs)
  {
    MembersNoNewline(keys, vs);
  }

  // ---------------------------------------------------------------- what decoders leave

  /** The string decoder hands back a tail of its input: what follows the closing quote. */
  lemma {:induction false} UnescapeBodyTail(t: Bytes)
    ensures var r := UnescapeBody(t); r.Some? ==> IsTail(r.value.1, t)
    decreases |t|
  {
    var r := UnescapeBody(t);
    if r.Some? && t[0] != Quote {
      var k := if t[0] == Backslash then 2 else 1;
      UnescapeBodyTail(t[k..]);
      assert r.value.1 == UnescapeBody(t[k..]).value.1;
      TailOfTail(r.value.1, t[k..], t);
    }
  }

  lemma DecodeStrTail(t: Bytes)
    ensures var r := DecodeStr(t); r.Some? ==> IsTail(r.value.1, t)
  {
    if |t| > 0 && t[0] == Quote {
      UnescapeBodyTail(t[1..]);
      var r := DecodeStr(t);
      if r.Some? {
        TailOfTail(r.value.1, t[1..], t);
      }
    }
  }

  lemma StrConsumes()
    ensures Consumes(DecodeStr)
  {
    forall u ensures DecodeStr(u).Some? ==> IsTail(DecodeStr(u).value.1, u) {
      DecodeStrTail(u);
    }
  }

  /** A list decoder over a decoder that leaves tails leaves a tail too. */
  lemma {:induction false} ItemsTail<T>(t: Bytes, dec: Bytes -> Option<(T, Bytes)>, close: Byte)
    requires Consumes(dec)
    ensures var r := DecodeItems(t, dec, close); r.Some? ==> IsTail(r.value.1, t)
    decreases |t|
  {
    var r := DecodeItems(t, dec, close);
    if r.Some? {
      var p := dec(t).value;
      assert IsTail(p.1, t);
      if p.1[0] == close {
        TailOfTail(r.value.1, p.1, t);
      } else {
        var q := DecodeItems(p.1[1..], dec, close);
        ItemsTail(p.1[1..], dec, close);
        assert r.value.1 == q.value.1;
        TailOfTail(p.1[1..], p.1, t);
        TailOfTail(r.value.1, p.1[1..], t);
      }
    }
  }

  lemma SeqTail<T>(t: Bytes, dec: Bytes -> Option<(T, Bytes)>, open: Byte, close: Byte)
    requires Consumes(dec)
    ensures var r := DecodeSeq(t, dec, open, close); r.Some? ==> IsTail(r.value.1, t)
  {
    var r := DecodeSeq(t, dec, open, close);
    if r.Some? && !(|t| >= 2 && t[0] == open && t[1] == close) {
      ItemsTail(t[1..], dec, close);
      TailOfTail(r.value.1, t[1..], t);
    }
  }

  lemma FieldTail(t: Bytes)
    ensures var r := DecodeField(t); r.Some? ==> IsTail(r.value.1, t)
  {
    var r := DecodeField(t);
    if r.Some? {
      var k := DecodeStr(t).value;
      DecodeStrTail(t);
      var t1 := k.1[1..];
      StrConsumes();
      SeqTail(t1, DecodeStr, OpenBracket, CloseBracket);
      TailOfTail(t1, k.1, t);
      TailOfTail(r.value.1, t1, t);
    }
  }

  lemma ValueTail(k: Kind, t: Bytes)
    ensures var r := DecodeValue(k, t); r.Some? ==> IsTail(r.value.1, t)
  {
    match k
    case TextKind => DecodeStrTail(t);
    case NumberKind =>
    case FlagKind =>
    case TextsKind => StrConsumes(); SeqTail(t, DecodeStr, OpenBracket, CloseBracket);
    case FieldsKind =>
      forall u ensures DecodeField(u).Some? ==> IsTail(DecodeField(u).value.1, u) {
        FieldTail(u);
      }
      SeqTail(t, DecodeField, OpenBrace, CloseBrace);
    case MaybeTextKind => DecodeStrTail(t);
  }

  lemma {:induction false} MembersTail(keys: seq<Str>, kinds: seq<Kind>, t: Bytes)
    requires |keys| == |kinds|
    ensures var r := DecodeMembers(keys, kinds, t); r.Some? ==> IsTail(r.value.1, t)
    decreases |keys|
  {
    var r := DecodeMembers(keys, kinds, t);
    if r.Some? && keys != [] {
      var t1 := Expect(EncodeStr(keys[0]) + [Colon], t).value;
      var v := DecodeValue(kinds[0], t1).value;
      ValueTail(kinds[0], t1);
      TailOfTail(v.1, t1, t);
      if |keys| > 1 {
        var t2 := v.1[1..];
        MembersTail(keys[1..], kinds[1..], t2);
        TailOfTail(t2, v.1, t);
        TailOfTail(r.value.1, t2, t);
      }
    }
  }

  /** An object decoder hands back what follows the closing brace. */
  lemma ObjectTail(keys: seq<Str>, kinds: seq<Kind>, t: Bytes)
    requires |keys| == |kinds|
    ensures var r := DecodeObject(keys, kinds, t); r.Some? ==> IsTail(r.value.1, t)
  {
    var r := DecodeObject(keys, kinds, t);
    if r.Some? {
      var m := DecodeMembers(keys, kinds, t[1..]).value;
      MembersTail(keys, kinds, t[1..]);
      TailOfTail(m.1, t[1..], t);
      TailOfTail(r.value.1, m.1, t);
    }
  }
}
