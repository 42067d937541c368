/** The bytes and the units that the positions count: UTF-8 and UTF-16 as they are stored. */
module Encodings {
  import opened Wrappers
  import opened Positions

  // ---- one character

  /** Section 3 of RFC 3629. */
  function Utf8(c: Scalar): (r: seq<nat>)
    ensures |r| == Len8(c) && forall i :: 0 <= i < |r| ==> r[i] < 256
    ensures !IsContinuation(r[0]) && forall i :: 0 < i < |r| ==> IsContinuation(r[i])
  {
    var n := c as nat;
    var m, l := n / 0x40, n / 0x40 / 0x40;
    if n < 0x80 then [n]
    else if n < 0x800 then [0xC0 + m, 0x80 + n % 0x40]
    else if n < 0x1_0000 then [0xE0 + l, 0x80 + m % 0x40, 0x80 + n % 0x40]
    else [0xF0 + l / 0x40, 0x80 + l % 0x40, 0x80 + m % 0x40, 0x80 + n % 0x40]
  }

  predicate IsContinuation(b: nat) {
    0x80 <= b < 0xC0
  }

  /** Section 2.1 of RFC 2781: one unit, or a high and a low surrogate. */
  function Utf16(c: Scalar): (r: seq<nat>)
    ensures |r| == Len16(c)
  {
    var n := c as nat;
    if n < 0x1_0000 then [n] else [0xD800 + (n - 0x1_0000) / 0x400, 0xDC00 + (n - 0x1_0000) % 0x400]
  }

  /** What the first byte says about the length. */
  function Utf8Length(first: nat): nat {
    if first < 0x80 then 1 else if first < 0xE0 then 2 else if first < 0xF0 then 3 else 4
  }

  /** Six more bits. */
  function Six(high: nat, continuation: nat): nat {
    high * 0x40 + continuation % 0x40
  }

  function Utf8Value(b: seq<nat>): nat
    requires b != [] && |b| >= Utf8Length(b[0])
  {
    var n := Utf8Length(b[0]);
    if n == 1 then b[0]
    else if n == 2 then Six(b[0] % 0x20, b[1])
    else if n == 3 then Six(Six(b[0] % 0x10, b[1]), b[2])
    else Six(Six(Six(b[0] % 0x08, b[1]), b[2]), b[3])
  }

  function Utf16Length(first: nat): nat {
    if 0xD800 <= first < 0xDC00 then 2 else 1
  }

  function Utf16Value(u: seq<nat>): nat
    requires u != [] && |u| >= Utf16Length(u[0])
  {
    if Utf16Length(u[0]) == 1 then u[0] else 0x1_0000 + u[0] % 0x400 * 0x400 + u[1] % 0x400
  }

  /** A character is read back from its code, whatever follows. */
  lemma Utf8RoundTrip(c: Scalar, rest: seq<nat>)
    ensures var b := Utf8(c) + rest; Utf8Length(b[0]) == Len8(c) && Utf8Value(b) == c as nat
  {
    hide Six;
    var n := c as nat;
    if n >= 0x1_0000 {
      FourBytes(c, rest);
    } else if n >= 0x800 {
      ThreeBytes(c, rest);
    } else if n >= 0x80 {
      SixBack(n);
    }
  }

  lemma ThreeBytes(c: Scalar, rest: seq<nat>)
    requires 0x800 <= c < 0x1_0000
    ensures var b := Utf8(c) + rest; Utf8Length(b[0]) == 3 && Utf8Value(b) == c as nat
  {
    hide Six;
    var n, b := c as nat, Utf8(c) + rest;
    assert b[0] == 0xE0 + n / 0x40 / 0x40 && b[1] == 0x80 + n / 0x40 % 0x40 && b[2] == 0x80 + n % 0x40;
    SixBack(n);
    SixBack(n / 0x40);
  }

  lemma FourBytes(c: Scalar, rest: seq<nat>)
    requires 0x1_0000 <= c
    ensures var b := Utf8(c) + rest; Utf8Length(b[0]) == 4 && Utf8Value(b) == c as nat
  {
    hide Six;
    var n, b := c as nat, Utf8(c) + rest;
    var m, l := n / 0x40, n / 0x40 / 0x40;
    assert b[0] == 0xF0 + l / 0x40 && b[1] == 0x80 + l % 0x40 && b[2] == 0x80 + m % 0x40 && b[3] == 0x80 + n % 0x40;
    SixBack(n);
    SixBack(m);
    SixBack(l);
  }

  lemma SixBack(n: nat)
    ensures Six(n / 0x40, 0x80 + n % 0x40) == n
  {
  }

  lemma Utf16RoundTrip(c: Scalar, rest: seq<nat>)
    ensures var u := Utf16(c) + rest; Utf16Length(u[0]) == Len16(c) && Utf16Value(u) == c as nat
  {
  }

  // ---- a text

  function Encoded(text: seq<Scalar>, utf8: bool): seq<nat> {
    if text == [] then []
    else Encoded(text[..|text| - 1], utf8) + if utf8 then Utf8(text[|text| - 1]) else Utf16(text[|text| - 1])
  }

  /** What positions measure is the length of the code. */
  lemma {:induction false} MeasureIsLength(text: seq<Scalar>, utf8: bool)
    ensures Measure(text, utf8) == |Encoded(text, utf8)|
    decreases |text|
  {
    if text != [] {
      MeasureIsLength(text[..|text| - 1], utf8);
    }
  }

  /** Characters start at exactly the bytes that do not continue one. */
  lemma {:induction false} BoundaryIff(text: seq<Scalar>, offset: nat)
    ensures var b := Encoded(text, true);
            IsBoundary(text, offset) <==> offset == |b| || (offset < |b| && !IsContinuation(b[offset]))
    decreases |text|
  {
    if text != [] {
      var m := |text| - 1;
      var before, last := Encoded(text[..m], true), Utf8(text[m]);
      BoundaryIff(text[..m], offset);
      MeasureIsLength(text[..m], true);
      MeasureIsLength(text, true);
      var b := Encoded(text, true);
      assert b == before + last;
      if offset >= |before| && offset < |b| {
        assert b[offset] == last[offset - |before|];
      }
    }
  }

  /** The text read back from its code. */
  function Decoded(b: seq<nat>, utf8: bool): Option<seq<nat>>
    decreases |b|
  {
    if b == [] then Some([])
    else
      var n := if utf8 then Utf8Length(b[0]) else Utf16Length(b[0]);
      if |b| < n then None
      else match Decoded(b[n..], utf8)
        case None => None
        case Some(rest) => Some([if utf8 then Utf8Value(b) else Utf16Value(b)] + rest)
  }

  function Values(text: seq<Scalar>): seq<nat> {
    seq(|text|, i requires 0 <= i < |text| => text[i] as nat)
  }

  lemma {:induction false} EncodedFirst(text: seq<Scalar>, utf8: bool)
    requires text != []
    ensures Encoded(text, utf8) == (if utf8 then Utf8(text[0]) else Utf16(text[0])) + Encoded(text[1..], utf8)
    decreases |text|
  {
    var m := |text| - 1;
    if m > 0 {
      EncodedFirst(text[..m], utf8);
      assert text[..m][1..] == text[1..][..m - 1];
      assert text[1..][m - 1] == text[m];
    } else {
      assert text[..0] == [] && text[1..] == [];
    }
  }

  lemma OneMeasure(c: Scalar)
    ensures Bytes([c]) == Len8(c) && Units([c]) == Len16(c)
  {
    assert [c][..0] == [];
  }

  /** No text is lost in either encoding. */
  lemma {:induction false} DecodedEncoded(text: seq<Scalar>, utf8: bool)
    ensures Decoded(Encoded(text, utf8), utf8) == Some(Values(text))
    decreases |text|
  {
    hide Utf8, Utf16, Utf8Value, Utf16Value;
    if text != [] {
      var rest := Encoded(text[1..], utf8);
      EncodedFirst(text, utf8);
      DecodedEncoded(text[1..], utf8);
      if utf8 {
        Utf8RoundTrip(text[0], rest);
      } else {
        Utf16RoundTrip(text[0], rest);
      }
      assert ((if utf8 then Utf8(text[0]) else Utf16(text[0])) + rest)[Measure([text[0]], utf8)..] == rest by {
        OneMeasure(text[0]);
      }
      OneMeasure(text[0]);
      assert Values(text) == [text[0] as nat] + Values(text[1..]);
      assert Encoded(text, utf8) != [];
    } else {
      assert Values(text) == [];
    }
  }
}
