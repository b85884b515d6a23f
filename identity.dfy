/** `PerverHandler.get_id`: the client identity is the URL-safe base64
    text (section 5 of RFC 4648) of the first `length_id` bytes of a
    SHA-1 digest of address and user agent, minus its last two
    characters. The digest itself is a library call and enters the model
    as a parameter. */
module Identity {
  import opened Wrappers

  type byte = x: int | 0 <= x < 256

  /** The URL-safe alphabet: `A`-`Z`, `a`-`z`, `0`-`9`, `-`, `_`. */
  function Sym(v: nat): (c: char)
    requires v < 64
    ensures c != '='
  {
    if v < 26 then ('A' as int + v) as char
    else if v < 52 then ('a' as int + v - 26) as char
    else if v < 62 then ('0' as int + v - 52) as char
    else if v == 62 then '-'
    else '_'
  }

  predicate IsSym(c: char) {
    ('A' <= c <= 'Z') || ('a' <= c <= 'z') || ('0' <= c <= '9') || c == '-' || c == '_'
  }

  function SymValue(c: char): (v: nat)
    requires IsSym(c)
    ensures v < 64 && Sym(v) == c
  {
    if 'A' <= c <= 'Z' then c as int - 'A' as int
    else if 'a' <= c <= 'z' then c as int - 'a' as int + 26
    else if '0' <= c <= '9' then c as int - '0' as int + 52
    else if c == '-' then 62
    else 63
  }

  lemma SymRoundTrip(v: nat)
    requires v < 64
    ensures IsSym(Sym(v)) && SymValue(Sym(v)) == v
  {
  }

  predicate AllSyms(s: string) {
    forall i :: 0 <= i < |s| ==> IsSym(s[i])
  }

  /** Four symbols for three bytes. */
  function Group(b0: byte, b1: byte, b2: byte): (r: string)
    ensures |r| == 4 && AllSyms(r)
  {
    SymRoundTrip(b0 / 4); SymRoundTrip((b0 % 4) * 16 + b1 / 16);
    SymRoundTrip((b1 % 16) * 4 + b2 / 64); SymRoundTrip(b2 % 64);
    [Sym(b0 / 4), Sym((b0 % 4) * 16 + b1 / 16), Sym((b1 % 16) * 4 + b2 / 64), Sym(b2 % 64)]
  }

  /** Two symbols and `==` for one final byte. */
  function Tail1(b0: byte): (r: string)
    ensures |r| == 4 && AllSyms(r[..2]) && r[2..] == "=="
  {
    SymRoundTrip(b0 / 4); SymRoundTrip((b0 % 4) * 16);
    [Sym(b0 / 4), Sym((b0 % 4) * 16), '=', '=']
  }

  /** Three symbols and `=` for two final bytes. */
  function Tail2(b0: byte, b1: byte): (r: string)
    ensures |r| == 4 && AllSyms(r[..3]) && r[3] == '='
  {
    SymRoundTrip(b0 / 4); SymRoundTrip((b0 % 4) * 16 + b1 / 16); SymRoundTrip((b1 % 16) * 4);
    [Sym(b0 / 4), Sym((b0 % 4) * 16 + b1 / 16), Sym((b1 % 16) * 4), '=']
  }

  /** `base64.urlsafe_b64encode`: three bytes become four symbols; a final
      single byte becomes two symbols and `==`, two bytes three symbols
      and `=`. */
  function Encode(bs: seq<byte>): (r: string)
    ensures |r| == 4 * ((|bs| + 2) / 3)
    decreases |bs|
  {
    if bs == [] then ""
    else if |bs| == 1 then Tail1(bs[0])
    else if |bs| == 2 then Tail2(bs[0], bs[1])
    else Group(bs[0], bs[1], bs[2]) + Encode(bs[3..])
  }

  /** The first byte of a group from its first two symbol values. */
  function Byte0(v0: nat, v1: nat): byte
    requires v0 < 64 && v1 < 64
  {
    v0 * 4 + v1 / 16
  }

  function Byte1(v1: nat, v2: nat): byte
    requires v1 < 64 && v2 < 64
  {
    (v1 % 16) * 16 + v2 / 4
  }

  function Byte2(v2: nat, v3: nat): byte
    requires v2 < 64 && v3 < 64
  {
    (v2 % 4) * 64 + v3
  }

  /** One block of four characters: four symbols give three bytes, two
      symbols and `==` one byte, three symbols and `=` two bytes. */
  function Quad(q: string): Option<seq<byte>>
    requires |q| == 4
  {
    if !IsSym(q[0]) || !IsSym(q[1]) then None
    else if q[2] == '=' && q[3] == '=' then Some([Byte0(SymValue(q[0]), SymValue(q[1]))])
    else if !IsSym(q[2]) then None
    else if q[3] == '=' then Some([Byte0(SymValue(q[0]), SymValue(q[1])), Byte1(SymValue(q[1]), SymValue(q[2]))])
    else if !IsSym(q[3]) then None
    else Some([Byte0(SymValue(q[0]), SymValue(q[1])), Byte1(SymValue(q[1]), SymValue(q[2])),
               Byte2(SymValue(q[2]), SymValue(q[3]))])
  }

  /** Base64 decoding, the inverse the round-trip lemma is stated with:
      None for text that is not a padded encoding (padding only at the end). */
  function Decode(s: string): Option<seq<byte>>
    decreases |s|
  {
    if s == [] then Some([])
    else if |s| < 4 then None
    else
      match Quad(s[..4])
      case None => None
      case Some(q) =>
        if |s| > 4 && |q| < 3 then None
        else
          match Decode(s[4..])
          case None => None
          case Some(rest) => Some(q + rest)
  }

  lemma DivMod16(x: nat, q: nat, r: nat)
    requires r < 16 && x == q * 16 + r
    ensures x / 16 == q && x % 16 == r
  {
  }

  lemma DivMod4(x: nat, q: nat, r: nat)
    requires r < 4 && x == q * 4 + r
    ensures x / 4 == q && x % 4 == r
  {
  }

  /** The byte arithmetic of one group undoes itself. */
  lemma GroupBytes(b0: byte, b1: byte, b2: byte)
    ensures Byte0(b0 / 4, (b0 % 4) * 16 + b1 / 16) == b0
    ensures Byte1((b0 % 4) * 16 + b1 / 16, (b1 % 16) * 4 + b2 / 64) == b1
    ensures Byte2((b1 % 16) * 4 + b2 / 64, b2 % 64) == b2
  {
    DivMod16((b0 % 4) * 16 + b1 / 16, b0 % 4, b1 / 16);
    DivMod4((b1 % 16) * 4 + b2 / 64, b1 % 16, b2 / 64);
  }

  lemma DecodeTail1(b0: byte)
    ensures Decode(Tail1(b0)) == Some([b0])
  {
    var v0, v1 := b0 / 4, (b0 % 4) * 16;
    SymRoundTrip(v0); SymRoundTrip(v1);
    DivMod16(v1, b0 % 4, 0);
    assert Byte0(v0, v1) == b0;
    var e := Tail1(b0);
    assert SymValue(e[0]) == v0 && SymValue(e[1]) == v1;
    assert e[..4] == e && e[4..] == [];
    assert Quad(e) == Some([b0]);
    assert Decode(e[4..]) == Some([]);
    assert [b0] + [] == [b0];
  }

  lemma DecodeTail2(b0: byte, b1: byte)
    ensures Decode(Tail2(b0, b1)) == Some([b0, b1])
  {
    var v0, v1, v2 := b0 / 4, (b0 % 4) * 16 + b1 / 16, (b1 % 16) * 4;
    SymRoundTrip(v0); SymRoundTrip(v1); SymRoundTrip(v2);
    DivMod16(v1, b0 % 4, b1 / 16);
    DivMod4(v2, b1 % 16, 0);
    assert Byte0(v0, v1) == b0 && Byte1(v1, v2) == b1;
    var e := Tail2(b0, b1);
    assert SymValue(e[0]) == v0 && SymValue(e[1]) == v1 && SymValue(e[2]) == v2;
    assert e[2] != '=';
    assert e[..4] == e && e[4..] == [];
    assert Quad(e) == Some([b0, b1]);
    assert Decode(e[4..]) == Some([]);
    assert [b0, b1] + [] == [b0, b1];
  }

  lemma QuadGroup(b0: byte, b1: byte, b2: byte)
    ensures Quad(Group(b0, b1, b2)) == Some([b0, b1, b2])
  {
    var v0, v1, v2, v3 := b0 / 4, (b0 % 4) * 16 + b1 / 16, (b1 % 16) * 4 + b2 / 64, b2 % 64;
    SymRoundTrip(v0); SymRoundTrip(v1); SymRoundTrip(v2); SymRoundTrip(v3);
    GroupBytes(b0, b1, b2);
  }

  lemma DecodeGroup(b0: byte, b1: byte, b2: byte, t: string, rest: seq<byte>)
    requires Decode(t) == Some(rest)
    ensures Decode(Group(b0, b1, b2) + t) == Some([b0, b1, b2] + rest)
  {
    QuadGroup(b0, b1, b2);
    var e := Group(b0, b1, b2) + t;
    assert e[..4] == Group(b0, b1, b2);
    assert e[4..] == t;
  }

  /** A list of at least three bytes is its first three and the rest. */
  lemma Cons3(bs: seq<byte>)
    requires |bs| >= 3
    ensures bs == [bs[0], bs[1], bs[2]] + bs[3..]
  {
  }

  /** Three leading bytes become one group of four symbols. */
  lemma EncodeThree(bs: seq<byte>, b0: byte, b1: byte, b2: byte, rest: seq<byte>)
    requires bs == [b0, b1, b2] + rest
    ensures Encode(bs) == Group(b0, b1, b2) + Encode(rest)
  {
    assert bs[3..] == rest;
  }

  /** Decoding an encoding gives the bytes back. */
  lemma {:induction false} DecodeEncode(bs: seq<byte>)
    ensures Decode(Encode(bs)) == Some(bs)
    decreases |bs|
  {
    if |bs| >= 3 {
      DecodeEncode(bs[3..]);
      Cons3(bs);
      DecodeThree(bs, bs[0], bs[1], bs[2], bs[3..]);
    } else if |bs| == 1 {
      DecodeOne(bs, bs[0]);
    } else if |bs| == 2 {
      DecodeTwo(bs, bs[0], bs[1]);
    }
  }

  lemma DecodeOne(bs: seq<byte>, b0: byte)
    requires bs == [b0]
    ensures Decode(Encode(bs)) == Some(bs)
  {
    DecodeTail1(b0);
    assert Encode(bs) == Tail1(b0);
  }

  lemma DecodeTwo(bs: seq<byte>, b0: byte, b1: byte)
    requires bs == [b0, b1]
    ensures Decode(Encode(bs)) == Some(bs)
  {
    DecodeTail2(b0, b1);
    assert Encode(bs) == Tail2(b0, b1);
  }

  lemma DecodeThree(bs: seq<byte>, b0: byte, b1: byte, b2: byte, rest: seq<byte>)
    requires bs == [b0, b1, b2] + rest && Decode(Encode(rest)) == Some(rest)
    ensures Decode(Encode(bs)) == Some(bs)
  {
    EncodeThree(bs, b0, b1, b2, rest);
    DecodeGroup(b0, b1, b2, Encode(rest), rest);
  }

  /** The text ends in `==` after symbols only. */
  predicate PaddedTwo(e: string) {
    |e| >= 2 && AllSyms(e[..|e| - 2]) && e[|e| - 2..] == "=="
  }

  /** When the byte count leaves one byte over, the encoding is symbols
      followed by exactly `==`. */
  lemma {:induction false} EncodeOneLeft(bs: seq<byte>)
    requires |bs| % 3 == 1
    ensures PaddedTwo(Encode(bs))
    decreases |bs|
  {
    if |bs| == 1 {
      EncodeOne(bs, bs[0]);
    } else {
      EncodeOneLeft(bs[3..]);
      Cons3(bs);
      EncodeThree(bs, bs[0], bs[1], bs[2], bs[3..]);
      PaddedAfterGroup(Group(bs[0], bs[1], bs[2]), Encode(bs[3..]));
    }
  }

  lemma EncodeOne(bs: seq<byte>, b0: byte)
    requires bs == [b0]
    ensures PaddedTwo(Encode(bs))
  {
    assert Encode(bs) == Tail1(b0);
  }

  lemma PaddedAfterGroup(g: string, t: string)
    requires AllSyms(g) && PaddedTwo(t)
    ensures PaddedTwo(g + t)
  {
    var e := g + t;
    assert e[..|e| - 2] == g + t[..|t| - 2];
    assert e[|e| - 2..] == t[|t| - 2..];
  }

  /** When the byte count is a multiple of three the encoding has no
      padding at all. */
  lemma {:induction false} EncodeWhole(bs: seq<byte>)
    requires |bs| % 3 == 0
    ensures AllSyms(Encode(bs))
    decreases |bs|
  {
    if bs != [] {
      EncodeWhole(bs[3..]);
      Cons3(bs);
      EncodeThree(bs, bs[0], bs[1], bs[2], bs[3..]);
      SymsAppend(Group(bs[0], bs[1], bs[2]), Encode(bs[3..]));
    }
  }

  lemma SymsAppend(a: string, b: string)
    requires AllSyms(a) && AllSyms(b)
    ensures AllSyms(a + b)
  {
    forall k | 0 <= k < |a + b| ensures IsSym((a + b)[k]) {
      if k >= |a| { assert (a + b)[k] == b[k - |a|]; }
    }
  }

  /** `digest[:length_id]`, encoded, then `[:-2]`. */
  function IdFromDigest(digest: seq<byte>, lengthId: nat): string {
    var e := Encode(if lengthId < |digest| then digest[..lengthId] else digest);
    if |e| >= 2 then e[..|e| - 2] else ""
  }

  /** `get_id()` with the digest function passed in. */
  function GetId(ip: string, agent: string, sha1: string -> seq<byte>, lengthId: nat): string {
    IdFromDigest(sha1(ip + agent), lengthId)
  }

  /** With a truncation length that leaves one byte over (the default 10
      does), `[:-2]` removes exactly the padding: the identity holds only
      base64 symbols and determines the truncated digest. */
  lemma IdDropsOnlyPadding(digest: seq<byte>, lengthId: nat)
    requires lengthId <= |digest| && lengthId % 3 == 1
    ensures var id := IdFromDigest(digest, lengthId);
      AllSyms(id) && |id| == 4 * ((lengthId + 2) / 3) - 2 && Decode(id + "==") == Some(digest[..lengthId])
  {
    var bs := digest[..lengthId];
    assert (if lengthId < |digest| then digest[..lengthId] else digest) == bs;
    var e := Encode(bs);
    EncodeOneLeft(bs);
    DecodeEncode(bs);
    PaddedCut(e, IdFromDigest(digest, lengthId));
  }

  lemma PaddedCut(e: string, id: string)
    requires PaddedTwo(e) && id == e[..|e| - 2]
    ensures AllSyms(id) && id + "==" == e
  {
    assert e == e[..|e| - 2] + e[|e| - 2..];
  }

  /** With the default length 10 the identity has 14 characters, none of
      them padding. */
  lemma IdDefaultShape(d: seq<byte>)
    requires |d| >= 10
    ensures |IdFromDigest(d, 10)| == 14 && '=' !in IdFromDigest(d, 10)
  {
    var id := IdFromDigest(d, 10);
    IdDropsOnlyPadding(d, 10);
    assert |id| == 4 * ((10 + 2) / 3) - 2;
    SymsNoPadding(id);
  }

  lemma SymsNoPadding(s: string)
    requires AllSyms(s)
    ensures '=' !in s
  {
    forall k | 0 <= k < |s| ensures s[k] != '=' {
      assert IsSym(s[k]);
    }
  }

  /** With the default length 10, two digests give the same identity
      exactly when their first ten bytes agree. */
  lemma IdDefaultInjective(d1: seq<byte>, d2: seq<byte>)
    requires |d1| >= 10 && |d2| >= 10
    ensures IdFromDigest(d1, 10) == IdFromDigest(d2, 10) <==> d1[..10] == d2[..10]
  {
    IdDropsOnlyPadding(d1, 10);
    IdDropsOnlyPadding(d2, 10);
    assert (if 10 < |d1| then d1[..10] else d1) == d1[..10];
    assert (if 10 < |d2| then d2[..10] else d2) == d2[..10];
  }

  /** With a length divisible by three there is no padding, so `[:-2]`
      cuts two real symbols and distinct digests can share an identity. */
  lemma IdCutsSymbols(digest: seq<byte>, lengthId: nat)
    requires 0 < lengthId <= |digest| && lengthId % 3 == 0
    ensures var e := Encode(digest[..lengthId]);
      IdFromDigest(digest, lengthId) + e[|e| - 2..] == e && AllSyms(e[|e| - 2..])
  {
    var bs := digest[..lengthId];
    assert (if lengthId < |digest| then digest[..lengthId] else digest) == bs;
    var e := Encode(bs);
    EncodeWhole(bs);
    assert IdFromDigest(digest, lengthId) == e[..|e| - 2];
    assert e[..|e| - 2] + e[|e| - 2..] == e;
    assert e[|e| - 2..][0] == e[|e| - 2] && e[|e| - 2..][1] == e[|e| - 1];
  }

  lemma IdCollision()
    ensures IdFromDigest([0, 0, 0], 3) == IdFromDigest([0, 0, 1], 3)
  {
    assert [0, 0, 0][3..] == [] && [0, 0, 1][3..] == [];
  }
}
