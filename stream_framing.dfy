/** The multipart byte framing the camera server writes on `/stream`. */
module StreamFraming {
  import opened Common

  const PART_BOUNDARY := "123456789000000000000987654321"
  /** The delimiter written before every part. */
  const STREAM_BOUNDARY := "\r\n--" + PART_BOUNDARY + "\r\n"
  /** Size of the stack buffer the part header is formatted into. */
  const PART_BUF_SIZE := 128
  const HEADER_HEAD := "Content-Type: image/jpeg\r\nContent-Length: "
  const HEADER_STAMP := "\r\nX-Timestamp: "
  const HEADER_END := "\r\n\r\n"

  /** The octets of a text as the firmware holds it: each character's low eight bits (the texts here are ASCII). */
  function Octets(s: string): (b: seq<Byte>)
    ensures |b| == |s| && forall i :: 0 <= i < |s| ==> b[i] == s[i] as int % 256
  {
    seq(|s|, i requires 0 <= i < |s| => s[i] as int % 256)
  }

  lemma OctetsConcat(a: string, b: string)
    ensures Octets(a + b) == Octets(a) + Octets(b)
  {
  }

  /** On texts whose characters fit in a byte, as all the firmware's texts do, no two texts share their octets. */
  lemma OctetsInjective(a: string, b: string)
    requires forall i :: 0 <= i < |a| ==> a[i] as int < 256
    requires forall i :: 0 <= i < |b| ==> b[i] as int < 256
    ensures Octets(a) == Octets(b) ==> a == b
  {
    if Octets(a) == Octets(b) {
      assert |a| == |b|;
      forall i | 0 <= i < |a|
        ensures a[i] == b[i]
      {
        assert Octets(a)[i] == Octets(b)[i];
      }
    }
  }

  /** The delimiter and the part header's fixed head as bytes, and the header's fixed tail with the zero timestamp. */
  const LEAD_BYTES: seq<Byte> := Octets(STREAM_BOUNDARY) + Octets(HEADER_HEAD)
  const TAIL_BYTES: seq<Byte> := Octets(STAMP_TAIL)

  predicate IsDigitChar(c: char) {
    '0' <= c <= '9'
  }

  function DigitChar(d: nat): (c: char)
    requires d < 10
    ensures IsDigitChar(c) && c as int - '0' as int == d
  {
    ('0' as int + d) as char
  }

  /** `%u`: the decimal digits of `n`, without leading zeros. */
  function Decimal(n: nat): (s: string)
    ensures |s| >= 1 && (forall i :: 0 <= i < |s| ==> IsDigitChar(s[i]))
    ensures s[0] == '0' ==> n == 0
  {
    if n < 10 then [DigitChar(n)] else Decimal(n / 10) + [DigitChar(n % 10)]
  }

  /** `%06d` for a non-negative value: left-padded with zeros to six digits. */
  function ZeroPad6(s: string): (r: string)
    ensures |r| >= 6 && |r| >= |s|
  {
    if |s| >= 6 then s else seq(6 - |s|, _ => '0') + s
  }

  /** `%d.%06d` for non-negative seconds and microseconds. */
  function Timestamp(sec: nat, usec: nat): string {
    Decimal(sec) + "." + ZeroPad6(Decimal(usec))
  }

  /** The part header `Content-Type: image/jpeg / Content-Length / X-Timestamp` as `snprintf` formats it. */
  function PartHeader(len: nat, sec: nat, usec: nat): string {
    HEADER_HEAD + Decimal(len) + HEADER_STAMP + Timestamp(sec, usec) + HEADER_END
  }

  /** The stream handler always passes zero seconds and zero microseconds. */
  const STAMP_TAIL := HEADER_STAMP + "0.000000" + HEADER_END

  lemma StreamHeaderShape(len: nat)
    ensures PartHeader(len, 0, 0) == HEADER_HEAD + Decimal(len) + STAMP_TAIL
  {
    assert Decimal(0) == "0";
    assert ZeroPad6("0") == "000000";
    assert Timestamp(0, 0) == "0.000000";
  }

  /** A number below `10^k` has at most `k` digits. */
  lemma {:induction false} DecimalLength(n: nat, k: nat, pow: nat)
    requires k >= 1 && pow == Pow10(k) && n < pow
    ensures |Decimal(n)| <= k
    decreases k
  {
    if n >= 10 {
      assert Pow10(1) == 10;
      assert k > 1;
      assert pow == 10 * Pow10(k - 1);
      DecimalLength(n / 10, k - 1, Pow10(k - 1));
    }
  }

  function Pow10(k: nat): nat {
    if k == 0 then 1 else 10 * Pow10(k - 1)
  }

  /**
   * For any 32-bit `size_t` length the formatted header fits the 128-byte buffer,
   * so `snprintf` never truncates and the length it returns is the header's length.
   */
  lemma HeaderFitsBuffer(len: nat)
    requires len < 0x1_0000_0000
    ensures |PartHeader(len, 0, 0)| < PART_BUF_SIZE
  {
    StreamHeaderShape(len);
    assert Pow10(10) == 10000000000;
    DecimalLength(len, 10, Pow10(10));
  }

  /** The three chunks written for one frame: delimiter, part header, payload. */
  function PartChunks(payload: seq<Byte>): (cs: seq<seq<Byte>>)
    ensures |cs| == 3 && cs[2] == payload
  {
    [Octets(STREAM_BOUNDARY), Octets(PartHeader(|payload|, 0, 0)), payload]
  }

  /** The bytes of the chunks, one after the other. */
  function Flatten(cs: seq<seq<Byte>>): seq<Byte> {
    if cs == [] then [] else cs[0] + Flatten(cs[1..])
  }

  /** The body of a stream that carried `payloads`: no delimiter follows the last payload. */
  function Wire(payloads: seq<seq<Byte>>): seq<Byte> {
    if payloads == [] then [] else Flatten(PartChunks(payloads[0])) + Wire(payloads[1..])
  }

  predicate IsDigitByte(b: Byte) {
    '0' as int <= b <= '9' as int
  }

  /** The longest run of decimal digits at the front of `w`. */
  function LeadingDigits(w: seq<Byte>): (d: seq<Byte>)
    ensures |d| <= |w| && d == w[..|d|]
    ensures forall i :: 0 <= i < |d| ==> IsDigitByte(d[i])
  {
    if w != [] && IsDigitByte(w[0]) then [w[0]] + LeadingDigits(w[1..]) else []
  }

  function DigitsValue(d: seq<Byte>): (n: nat)
    requires forall i :: 0 <= i < |d| ==> IsDigitByte(d[i])
  {
    if d == [] then 0
    else
      assert IsDigitByte(d[|d| - 1]);
      DigitsValue(d[..|d| - 1]) * 10 + (d[|d| - 1] - '0' as int)
  }

  predicate HasPrefix(p: seq<Byte>, w: seq<Byte>) {
    |p| <= |w| && w[..|p|] == p
  }

  /**
   * What a client reading the stream recovers: the payloads, delimited by the boundary and
   * sized by each part's `Content-Length`; `None` when the bytes are not so framed.
   */
  function Unframe(w: seq<Byte>): Option<seq<seq<Byte>>>
    decreases |w|
  {
    if w == [] then Some([])
    else if !HasPrefix(LEAD_BYTES, w) then None
    else
      var r1 := w[|LEAD_BYTES|..];
      var d := LeadingDigits(r1);
      var r2 := r1[|d|..];
      if d == [] || !HasPrefix(TAIL_BYTES, r2) then None
      else
        var r3 := r2[|TAIL_BYTES|..];
        var n := DigitsValue(d);
        if n > |r3| then None
        else
          match Unframe(r3[n..])
          case None => None
          case Some(rest) => Some([r3[..n]] + rest)
  }

  lemma OctetsOfDigits(s: string)
    requires forall i :: 0 <= i < |s| ==> IsDigitChar(s[i])
    ensures forall i :: 0 <= i < |s| ==> IsDigitByte(Octets(s)[i])
  {
  }

  /** Appending a digit multiplies the value read so far by ten and adds the digit. */
  lemma DigitsSnoc(hi: seq<Byte>, c: Byte)
    requires forall i :: 0 <= i < |hi| ==> IsDigitByte(hi[i])
    requires IsDigitByte(c)
    ensures forall i :: 0 <= i < |hi + [c]| ==> IsDigitByte((hi + [c])[i])
    ensures DigitsValue(hi + [c]) == DigitsValue(hi) * 10 + (c - '0' as int)
  {
    assert (hi + [c])[..|hi|] == hi;
  }

  /** The bytes of `Decimal(n)` are digits that read back as `n`. */
  lemma {:induction false} DecimalDigits(n: nat)
    ensures forall i :: 0 <= i < |Decimal(n)| ==> IsDigitByte(Octets(Decimal(n))[i])
    ensures DigitsValue(Octets(Decimal(n))) == n
  {
    OctetsOfDigits(Decimal(n));
    if n >= 10 {
      var q, r := n / 10, n % 10;
      assert n == q * 10 + r;
      var hi := Decimal(q);
      var c := DigitChar(r);
      DecimalDigits(q);
      OctetsConcat(hi, [c]);
      assert Octets([c]) == [c as int];
      DigitsSnoc(Octets(hi), c as int);
    } else {
      var d := Octets(Decimal(n));
      assert d == [d[0]];
      assert d[..0] == [];
    }
  }

  lemma {:induction false} LeadingDigitsStop(d: seq<Byte>, rest: seq<Byte>)
    requires forall i :: 0 <= i < |d| ==> IsDigitByte(d[i])
    requires rest != [] && !IsDigitByte(rest[0])
    ensures LeadingDigits(d + rest) == d
  {
    if d != [] {
      assert (d + rest)[1..] == d[1..] + rest;
      LeadingDigitsStop(d[1..], rest);
      assert d == [d[0]] + d[1..];
    }
  }

  lemma FlattenThree(a: seq<Byte>, b: seq<Byte>, c: seq<Byte>)
    ensures Flatten([a, b, c]) == a + b + c
  {
    assert [c][1..] == [];
    assert Flatten([c]) == c;
    assert [b, c][1..] == [c];
    assert Flatten([b, c]) == b + c;
    assert [a, b, c][1..] == [b, c];
  }

  /** The decomposition of one framed part into the pieces `Unframe` checks. */
  lemma PartBytes(p: seq<Byte>)
    ensures Flatten(PartChunks(p)) ==
            Octets(STREAM_BOUNDARY) + (Octets(HEADER_HEAD) + (Octets(Decimal(|p|)) + (Octets(STAMP_TAIL) + p)))
  {
    var b, h, d, t := Octets(STREAM_BOUNDARY), Octets(HEADER_HEAD), Octets(Decimal(|p|)), Octets(STAMP_TAIL);
    StreamHeaderShape(|p|);
    OctetsConcat(HEADER_HEAD, Decimal(|p|));
    OctetsConcat(HEADER_HEAD + Decimal(|p|), STAMP_TAIL);
    var hdr := Octets(PartHeader(|p|, 0, 0));
    assert hdr == h + d + t;
    assert PartChunks(p) == [b, hdr, p];
    FlattenThree(b, hdr, p);
    Regroup(b, h, d, t, p);
  }

  lemma Regroup(b: seq<Byte>, h: seq<Byte>, d: seq<Byte>, t: seq<Byte>, p: seq<Byte>)
    ensures b + (h + d + t) + p == b + (h + (d + (t + p)))
  {
  }

  /** `Unframe` on one part whose length digits are `d`, followed by `rest`. */
  lemma UnframeStep(w: seq<Byte>, d: seq<Byte>, p: seq<Byte>, rest: seq<Byte>)
    requires w == LEAD_BYTES + (d + (TAIL_BYTES + (p + rest)))
    requires d != [] && LeadingDigits(d + (TAIL_BYTES + (p + rest))) == d && DigitsValue(d) == |p|
    ensures Unframe(w) == match Unframe(rest) case None => None case Some(ps) => Some([p] + ps)
  {
    assert |Octets(STREAM_BOUNDARY)| > 0;
    assert w != [];
    assert w[..|LEAD_BYTES|] == LEAD_BYTES;
    var r1 := w[|LEAD_BYTES|..];
    assert r1 == d + (TAIL_BYTES + (p + rest));
    var r2 := r1[|d|..];
    assert r2 == TAIL_BYTES + (p + rest);
    assert r2[..|TAIL_BYTES|] == TAIL_BYTES;
    var r3 := r2[|TAIL_BYTES|..];
    assert r3 == p + rest;
    assert r3[..|p|] == p && r3[|p|..] == rest;
  }

  /** Reading one framed part back yields its payload, followed by whatever the rest yields. */
  lemma Regroup6(b: seq<Byte>, h: seq<Byte>, d: seq<Byte>, t: seq<Byte>, p: seq<Byte>, rest: seq<Byte>)
    ensures b + (h + (d + (t + p))) + rest == (b + h) + (d + (t + (p + rest)))
  {
  }

  lemma UnframePart(p: seq<Byte>, rest: seq<Byte>)
    ensures Unframe(Flatten(PartChunks(p)) + rest) ==
            match Unframe(rest) case None => None case Some(ps) => Some([p] + ps)
  {
    var dg := Octets(Decimal(|p|));
    PartBytes(p);
    Regroup6(Octets(STREAM_BOUNDARY), Octets(HEADER_HEAD), dg, TAIL_BYTES, p, rest);
    var w := Flatten(PartChunks(p)) + rest;
    assert w == LEAD_BYTES + (dg + (TAIL_BYTES + (p + rest)));
    DecimalDigits(|p|);
    assert TAIL_BYTES[0] == '\r' as int;
    LeadingDigitsStop(dg, TAIL_BYTES + (p + rest));
    UnframeStep(w, dg, p, rest);
  }

  /** Every payload written to the stream is recovered, in order, by reading the framing back. */
  lemma {:induction false} UnframeWire(payloads: seq<seq<Byte>>)
    ensures Unframe(Wire(payloads)) == Some(payloads)
    decreases |payloads|
  {
    if payloads != [] {
      UnframePart(payloads[0], Wire(payloads[1..]));
      UnframeWire(payloads[1..]);
      assert payloads == [payloads[0]] + payloads[1..];
    }
  }
}
