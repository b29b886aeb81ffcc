/** UTF-8, as RFC 3629 section 3 lays it out: the bytes of a Rust `String`. */
module Utf8 {
  import opened Wrappers
  import opened Bytes

  /** The payload above `n` groups of six bits. */
  function Lead(v: nat, n: nat): nat {
    if n == 0 then v else Lead(v / 64, n - 1)
  }

  /** Those `n` groups as continuation bytes, most significant first. */
  function Tail(v: nat, n: nat): (t: seq<byte>)
    ensures |t| == n && forall i :: 0 <= i < n ==> 0x80 <= t[i] < 0xC0
  {
    if n == 0 then [] else Tail(v / 64, n - 1) + [0x80 + v % 64]
  }

  function Glue(lead: nat, tail: seq<byte>): nat
    requires forall i :: 0 <= i < |tail| ==> 0x80 <= tail[i] < 0xC0
  {
    if |tail| == 0 then lead
    else
      var last: int := tail[|tail| - 1];
      Glue(lead, tail[..|tail| - 1]) * 64 + (last - 0x80)
  }

  /** How many continuation bytes a scalar needs. */
  function TailLength(v: nat): nat {
    if v < 0x80 then 0 else if v < 0x800 then 1 else if v < 0x1_0000 then 2 else 3
  }

  /** The bits that mark a lead byte with `n` continuation bytes to follow. */
  function Mark(n: nat): int {
    if n == 0 then 0 else if n == 1 then 0xC0 else if n == 2 then 0xE0 else 0xF0
  }

  function LeadByte(v: nat): byte
    requires v < 0x11_0000
  {
    LeadFits(v);
    Mark(TailLength(v)) + Lead(v, TailLength(v))
  }

  lemma LeadFits(v: nat)
    requires v < 0x11_0000
    ensures var n, lead := TailLength(v), Lead(v, TailLength(v));
      && (n == 0 ==> lead < 0x80) && (n == 1 ==> 2 <= lead < 0x20)
      && (n == 2 ==> lead < 0x10) && (n == 3 ==> lead < 5)
  {
    assert Lead(v, 1) == Lead(v / 64, 0) == v / 64;
    assert Lead(v, 2) == Lead(v / 64, 1) == Lead(v / 64 / 64, 0);
    assert Lead(v, 3) == Lead(v / 64, 2) == Lead(v / 64 / 64, 1) == Lead(v / 64 / 64 / 64, 0);
  }

  function EncodeScalar(c: char): seq<byte> {
    [LeadByte(c as int)] + Tail(c as int, TailLength(c as int))
  }

  function Encode(s: string): seq<byte> {
    if |s| == 0 then [] else EncodeScalar(s[0]) + Encode(s[1..])
  }

  /** How many continuation bytes a lead byte announces, and its payload. */
  function Announced(lead: byte): Option<(nat, nat)> {
    if lead < 0x80 then Some((0, lead))
    else if 0xC2 <= lead < 0xE0 then Some((1, lead as int - 0xC0))
    else if 0xE0 <= lead < 0xF0 then Some((2, lead as int - 0xE0))
    else if 0xF0 <= lead < 0xF5 then Some((3, lead as int - 0xF0))
    else None
  }

  predicate IsScalar(v: nat) {
    v < 0xD800 || 0xE000 <= v < 0x11_0000
  }

  /** The first scalar of `b` and how many bytes spell it. Overlong spellings,
      surrogates and anything above U+10FFFF are refused. */
  function DecodeScalar(b: seq<byte>): (r: Option<(char, nat)>)
    ensures r.Some? ==> 1 <= r.value.1 <= |b|
  {
    if |b| == 0 then None
    else
      var (n, payload) :- Announced(b[0]);
      if |b| <= n || exists i :: 1 <= i <= n && !(0x80 <= b[i] < 0xC0) then None
      else
        var v := Glue(payload, b[1..n + 1]);
        if IsScalar(v) && TailLength(v) == n then Some((v as char, n + 1)) else None
  }

  function Decode(b: seq<byte>): Option<string>
    decreases |b|
  {
    if |b| == 0 then Some("")
    else
      var (c, n) :- DecodeScalar(b);
      var rest :- Decode(b[n..]);
      Some([c] + rest)
  }

  lemma {:induction false} GlueInverts(v: nat, n: nat)
    ensures Glue(Lead(v, n), Tail(v, n)) == v
  {
    if n > 0 {
      GlueInverts(v / 64, n - 1);
      assert Tail(v, n)[..n - 1] == Tail(v / 64, n - 1);
    }
  }

  lemma {:induction false} SplitInverts(lead: nat, tail: seq<byte>)
    requires forall i :: 0 <= i < |tail| ==> 0x80 <= tail[i] < 0xC0
    ensures Lead(Glue(lead, tail), |tail|) == lead && Tail(Glue(lead, tail), |tail|) == tail
  {
    if |tail| > 0 {
      var last := |tail| - 1;
      SplitInverts(lead, tail[..last]);
      var g := Glue(lead, tail[..last]);
      assert Glue(lead, tail) / 64 == g && Glue(lead, tail) % 64 == tail[last] as int - 0x80;
      assert tail == tail[..last] + [tail[last]];
    }
  }

  lemma ScalarRoundTrip(c: char, rest: seq<byte>)
    ensures DecodeScalar(EncodeScalar(c) + rest) == Some((c, |EncodeScalar(c)|))
  {
    var v: nat := c as int;
    var n := TailLength(v);
    var b := EncodeScalar(c) + rest;
    LeadFits(v);
    assert Announced(b[0]) == Some((n, Lead(v, n)));
    assert b[1..n + 1] == Tail(v, n);
    assert forall i :: 1 <= i <= n ==> b[i] == Tail(v, n)[i - 1];
    GlueInverts(v, n);
  }

  lemma MarkedLead(lead: byte)
    requires Announced(lead).Some?
    ensures var (n, payload) := Announced(lead).value; Mark(n) + payload == lead
  {
  }

  lemma ScalarIsCanonical(b: seq<byte>)
    requires DecodeScalar(b).Some?
    ensures var (c, n) := DecodeScalar(b).value; EncodeScalar(c) == b[..n]
  {
    var (n, payload) := Announced(b[0]).value;
    var tail := b[1..n + 1];
    ContinuationsOf(b, n);
    var v := Glue(payload, tail);
    SplitInverts(payload, tail);
    assert (v as char) as int == v;
    MarkedLead(b[0]);
    assert EncodeScalar(v as char) == [b[0]] + tail;
    HeadOf(b, n);
  }

  lemma ContinuationsOf(b: seq<byte>, n: nat)
    requires n < |b| && forall i :: 1 <= i <= n ==> 0x80 <= b[i] < 0xC0
    ensures var t := b[1..n + 1]; forall i :: 0 <= i < |t| ==> 0x80 <= t[i] < 0xC0
  {
  }

  lemma HeadOf(b: seq<byte>, n: nat)
    requires n < |b|
    ensures b[..n + 1] == [b[0]] + b[1..n + 1]
  {
  }

  /** Every string survives encoding. */
  lemma {:induction false} RoundTrip(s: string)
    ensures Decode(Encode(s)) == Some(s)
  {
    if |s| > 0 {
      var e, rest := EncodeScalar(s[0]), Encode(s[1..]);
      ScalarRoundTrip(s[0], rest);
      RoundTrip(s[1..]);
      assert (e + rest)[|e|..] == rest;
      DecodeStep(e + rest, s[0], |e|, s[1..]);
      assert [s[0]] + s[1..] == s;
    }
  }

  lemma DecodeStep(b: seq<byte>, c: char, n: nat, rest: string)
    requires DecodeScalar(b) == Some((c, n)) && Decode(b[n..]) == Some(rest)
    ensures Decode(b) == Some([c] + rest)
  {
  }

  /** And nothing but the encoding of a string decodes to it. */
  lemma {:induction false} Canonical(b: seq<byte>)
    requires Decode(b).Some?
    ensures Encode(Decode(b).value) == b
    decreases |b|
  {
    if |b| > 0 {
      var (c, n) := DecodeScalar(b).value;
      var rest := Decode(b[n..]).value;
      ScalarIsCanonical(b);
      Canonical(b[n..]);
      assert ([c] + rest)[1..] == rest;
      assert b == b[..n] + b[n..];
    }
  }
}
