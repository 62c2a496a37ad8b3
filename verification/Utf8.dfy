/**
 rats/cose.py: the text the decoder takes is what `encode("utf-8")` writes of some characters
 (RFC 3629, section 3), and nothing else.
 */
module Utf8 {
  import opened Bytes
  import opened Cbor

  /** A Unicode scalar value: a code point that is no surrogate. */
  predicate Scalar(c: nat) {
    c < 0x11_0000 && !(0xD800 <= c < 0xE000)
  }

  function Encoded(c: nat): seq<byte>
    requires Scalar(c)
  {
    if c < 0x80 then [c]
    else if c < 0x800 then [0xC0 + c / 64, 0x80 + c % 64]
    else if c < 0x1_0000 then [0xE0 + c / 64 / 64, 0x80 + c / 64 % 64, 0x80 + c % 64]
    else [0xF0 + c / 64 / 64 / 64, 0x80 + c / 64 / 64 % 64, 0x80 + c / 64 % 64, 0x80 + c % 64]
  }

  ghost predicate AllScalar(cs: seq<nat>) {
    forall i :: 0 <= i < |cs| ==> Scalar(cs[i])
  }

  function EncodedAll(cs: seq<nat>): seq<byte>
    requires AllScalar(cs)
  {
    if cs == [] then [] else Encoded(cs[0]) + EncodedAll(cs[1..])
  }

  lemma {:induction false} EncodedIsValid(c: nat, rest: seq<byte>)
    requires Scalar(c)
    ensures ValidUtf8(rest) ==> ValidUtf8(Encoded(c) + rest)
  {
    var s := Encoded(c) + rest;
    assert s[|Encoded(c)|..] == rest;
  }

  /** How many bytes the first character of a text takes. */
  function Width(s: seq<byte>): nat
    requires s != []
  {
    if s[0] < 0x80 then 1 else if s[0] < 0xE0 then 2 else if s[0] < 0xF0 then 3 else 4
  }

  lemma {:induction false} FirstCharacter(s: seq<byte>) returns (c: nat)
    requires s != [] && ValidUtf8(s)
    ensures Scalar(c) && Width(s) <= |s| && Encoded(c) == s[..Width(s)] && ValidUtf8(s[Width(s)..])
  {
    if s[0] < 0x80 {
      c := s[0];
    } else if s[0] < 0xE0 {
      c := Two(s[0] - 0xC0, s[1] - 0x80);
    } else if s[0] < 0xF0 {
      c := Three(s[0] - 0xE0, s[1] - 0x80, s[2] - 0x80);
    } else {
      c := Four(s[0] - 0xF0, s[1] - 0x80, s[2] - 0x80, s[3] - 0x80);
    }
  }

  lemma {:induction false} Two(w: nat, x: nat) returns (c: nat)
    requires 2 <= w < 0x20 && x < 0x40
    ensures 0x80 <= c < 0x800 && c / 64 == w && c % 64 == x
  {
    c := 64 * w + x;
  }

  lemma {:induction false} Three(w: nat, x: nat, y: nat) returns (c: nat)
    requires w < 0x10 && x < 0x40 && y < 0x40 && (w == 0 ==> x >= 0x20) && (w == 13 ==> x < 0x20)
    ensures 0x800 <= c < 0x1_0000 && !(0xD800 <= c < 0xE000)
    ensures c / 64 / 64 == w && c / 64 % 64 == x && c % 64 == y
  {
    var d := 64 * w + x;
    c := 64 * d + y;
    assert c / 64 == d && d / 64 == w && d % 64 == x;
  }

  lemma {:induction false} Four(w: nat, x: nat, y: nat, z: nat) returns (c: nat)
    requires w < 5 && x < 0x40 && y < 0x40 && z < 0x40 && (w == 0 ==> x >= 0x10) && (w == 4 ==> x < 0x10)
    ensures 0x1_0000 <= c < 0x11_0000
    ensures c / 64 / 64 / 64 == w && c / 64 / 64 % 64 == x && c / 64 % 64 == y && c % 64 == z
  {
    var d := 64 * w + x;
    var e := 64 * d + y;
    c := 64 * e + z;
    assert c / 64 == e && e / 64 == d && d / 64 == w && e % 64 == y && d % 64 == x;
  }

  lemma {:induction false} ValidIsEncoded(s: seq<byte>) returns (cs: seq<nat>)
    requires ValidUtf8(s)
    ensures AllScalar(cs) && EncodedAll(cs) == s
  {
    hide ValidUtf8, Encoded, Scalar;
    if s == [] {
      cs := [];
    } else {
      var c := FirstCharacter(s);
      var rest := ValidIsEncoded(s[Width(s)..]);
      cs := [c] + rest;
      assert cs[1..] == rest && s == s[..Width(s)] + s[Width(s)..];
    }
  }

  lemma {:induction false} EncodedAllIsValid(cs: seq<nat>)
    requires AllScalar(cs)
    ensures ValidUtf8(EncodedAll(cs))
  {
    hide ValidUtf8, Encoded, Scalar;
    if cs == [] {
      NothingIsValid();
    } else {
      EncodedAllIsValid(cs[1..]);
      EncodedIsValid(cs[0], EncodedAll(cs[1..]));
    }
  }

  lemma {:induction false} NothingIsValid()
    ensures ValidUtf8([])
  {
  }

  /** Text is taken exactly when it is the encoding of some characters. */
  lemma {:induction false} ValidExactly(s: seq<byte>)
    ensures ValidUtf8(s) <==> exists cs: seq<nat> :: AllScalar(cs) && EncodedAll(cs) == s
  {
    hide ValidUtf8, AllScalar, EncodedAll;
    if ValidUtf8(s) {
      var cs := ValidIsEncoded(s);
    }
    if cs: seq<nat> :| AllScalar(cs) && EncodedAll(cs) == s {
      EncodedAllIsValid(cs);
    }
  }
}
