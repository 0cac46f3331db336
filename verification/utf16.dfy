/**
 * The width calculator of the status board: how many terminal columns a
 * Java string (a sequence of UTF-16 code units) occupies, following
 * Display.stringWidth and Display.charWidth.
 */
module Utf16 {
  import opened Wrappers

  /**
   * A UTF-16 code unit, a Java `char`. The source only ever uses a char
   * promoted to `int`, so a unit is a 32-bit vector below 0x10000.
   */
  type Unit = c: bv32 | c < 0x10000

  /** A Java string: its UTF-16 code units. */
  type Text = seq<Unit>

  /**
   * Display.charWidth: two columns when bits 8..15 of the code point are 0x27
   * or when it lies in 0x1F300..0x1F5FF, one column otherwise. Java passes an
   * `int`; an int at or above 2^31 (negative in Java) is outside that range
   * under either reading, so unsigned comparison gives the same answer.
   */
  function CharWidth(c: bv32): (r: nat)
    ensures 1 <= r <= 2
  {
    if c & 0xff00 == 0x2700 || (0x1f300 <= c && c < 0x1f600) then 2 else 1
  }

  /** Within the Basic Multilingual Plane the wide code points are exactly U+2700..U+27FF. */
  lemma CharWidthInBmp(c: Unit)
    ensures CharWidth(c) == 2 <==> 0x2700 <= c < 0x2800
  {
  }

  /** In the supplementary plane 1 the wide code points are U+12700..U+127FF and U+1F300..U+1F5FF. */
  lemma CharWidthInPlaneOne(c: bv32)
    requires 0x10000 <= c < 0x20000
    ensures CharWidth(c) == 2 <==> (0x12700 <= c < 0x12800 || 0x1f300 <= c < 0x1f600)
  {
  }

  /** The source's test for "this unit is half of a surrogate pair" (0xD800..0xDFFF). */
  predicate IsSurrogate(c: Unit) {
    c & 0xf800 == 0xd800
  }

  /** A high (leading) surrogate in the sense of RFC 2781. */
  predicate IsHighSurrogate(c: Unit) {
    0xd800 <= c < 0xdc00
  }

  /** A low (trailing) surrogate in the sense of RFC 2781. */
  predicate IsLowSurrogate(c: Unit) {
    0xdc00 <= c < 0xe000
  }

  /** The source tells a second half from a first half by bit 0x400 alone. */
  predicate HasLowBit(c: Unit) {
    c & 0x400 != 0
  }

  /** The code point the source computes from a pair, joining the parts with `|` (line 458). */
  function Combine(c: Unit, c2: Unit): (r: bv32)
    ensures 0x10000 <= r < 0x100000
  {
    (((c) & 0x3ff) << 10) | ((c2) & 0x3ff) | 0x10000
  }

  /** Decoding of a surrogate pair as in section 2.2 of RFC 2781: U = U' + 0x10000. */
  function Rfc2781Decode(w1: Unit, w2: Unit): bv32 {
    ((((w1) & 0x3ff) << 10) | ((w2) & 0x3ff)) + 0x10000
  }

  /** A Unicode scalar value: a code point that is not a surrogate. */
  predicate IsScalar(cp: bv32) {
    cp < 0x110000 && !(0xd800 <= cp < 0xe000)
  }

  /** Encoding of one scalar value as in section 2.1 of RFC 2781. */
  function Encode(cp: bv32): (r: Text)
    requires IsScalar(cp)
    ensures |r| == (if cp < 0x10000 then 1 else 2)
    ensures cp < 0x10000 ==> !IsSurrogate(r[0])
    ensures cp >= 0x10000 ==> IsHighSurrogate(r[0]) && IsLowSurrogate(r[1])
  {
    if cp < 0x10000 then [cp] else [HighHalf(cp), LowHalf(cp)]
  }

  /** The leading unit of a supplementary code point: 0xD800 plus the top ten bits of cp - 0x10000. */
  function HighHalf(cp: bv32): (w: Unit)
    requires 0x10000 <= cp < 0x110000
    ensures IsHighSurrogate(w) && w & 0x3ff == (cp - 0x10000) >> 10
  {
    0xd800 | ((cp - 0x10000) >> 10)
  }

  /** The trailing unit of a supplementary code point: 0xDC00 plus the low ten bits of cp - 0x10000. */
  function LowHalf(cp: bv32): (w: Unit)
    requires 0x10000 <= cp < 0x110000
    ensures IsLowSurrogate(w) && w & 0x3ff == (cp - 0x10000) & 0x3ff
  {
    0xdc00 | ((cp - 0x10000) & 0x3ff)
  }

  /** Encoding of a sequence of scalar values. */
  function EncodeAll(cps: seq<bv32>): (r: Text)
    requires forall i :: 0 <= i < |cps| ==> IsScalar(cps[i])
  {
    if cps == [] then [] else Encode(cps[0]) + EncodeAll(cps[1..])
  }

  /** RFC 2781 decoding undoes RFC 2781 encoding. */
  lemma Rfc2781RoundTrip(cp: bv32)
    requires IsScalar(cp) && cp >= 0x10000
    ensures Rfc2781Decode(Encode(cp)[0], Encode(cp)[1]) == cp
  {
    HalvesRoundTrip(cp);
  }

  lemma HalvesRoundTrip(cp: bv32)
    requires 0x10000 <= cp < 0x110000
    ensures Rfc2781Decode(HighHalf(cp), LowHalf(cp)) == cp
  {
  }

  /**
   * The source's `|` agrees with the standard `+` exactly when bit 0x40 of
   * the first unit is clear: for high units 0xD800..0xD83F (plane 1) and
   * every other block of 64, but not for 0xD840..0xD87F (plane 2) and so on.
   */
  lemma CombineAgreesWithRfc2781Iff(w1: Unit, w2: Unit)
    requires 0xd800 <= w1 < 0xdc00
    ensures Combine(w1, w2) == Rfc2781Decode(w1, w2) <==> w1 & 0x40 == 0
  {
  }

  /** What the source measures for a scalar value it meets encoded. */
  function Measured(cp: bv32): (r: bv32)
    requires IsScalar(cp)
    ensures cp < 0x20000 ==> r == cp
  {
    if cp < 0x10000 then cp else (cp - 0x10000) | 0x10000
  }

  /** Joining the halves of an encoded scalar value gives Measured. */
  lemma CombineOfEncoded(cp: bv32)
    requires IsScalar(cp) && cp >= 0x10000
    ensures Combine(Encode(cp)[0], Encode(cp)[1]) == Measured(cp)
  {
  }

  /** Adds n to a width, passing a failure through. */
  function Shift(n: nat, r: Option<nat>): Option<nat> {
    match r
    case None => None
    case Some(m) => Some(n + m)
  }

  /**
   * Display.stringWidth as a function: walk the units left to right, join a
   * first half (surrogate without bit 0x400) with the next unit when that has
   * bit 0x400 set, and add up the widths. None stands for the "Invalid UTF-16"
   * exception: a second half where a first half is expected, a first half as
   * the last unit, or a first half followed by a unit without bit 0x400.
   */
  function Width(s: Text): (r: Option<nat>)
    decreases |s|
  {
    if s == [] then Some(0)
    else if !IsSurrogate(s[0]) then Shift(CharWidth(s[0]), Width(s[1..]))
    else if HasLowBit(s[0]) || |s| == 1 then None
    else if !HasLowBit(s[1]) then None
    else Shift(CharWidth(Combine(s[0], s[1])), Width(s[2..]))
  }

  /**
   * After a first half, any unit with bit 0x400 set is taken as the second
   * half, surrogate or not: U+D83D U+0441 measures as the single code point
   * U+1F441, two columns wide.
   */
  lemma AnyUnitWithLowBitCompletesPair(c: Unit, c2: Unit)
    requires IsSurrogate(c) && !HasLowBit(c) && HasLowBit(c2)
    ensures Width([c, c2]) == Some(CharWidth(Combine(c, c2)))
    ensures !IsSurrogate(0x0441) && Combine(0xd83d, 0x0441) == 0x1f441 && Width([0xd83d, 0x0441]) == Some(2)
  {
    assert [c, c2][2..] == [];
    assert [0xd83d as Unit, 0x0441][2..] == [];
  }

  /** The line stringWidth prints before throwing on a second half where a first half belongs or a trailing first half. */
  const Oops1: Text := [0x6f, 0x6f, 0x70, 0x73, 0x31]
  /** The line stringWidth prints before throwing on a first half not followed by a second half. */
  const Oops2: Text := [0x6f, 0x6f, 0x70, 0x73, 0x32]

  /** What stringWidth prints (without the line end) before it throws on s. */
  function Diagnostic(s: Text): (r: Text)
    requires Width(s).None?
    ensures r == Oops1 || r == Oops2
    decreases |s|
  {
    if !IsSurrogate(s[0]) then Diagnostic(s[1..])
    else if HasLowBit(s[0]) || |s| == 1 then Oops1
    else if !HasLowBit(s[1]) then Oops2
    else Diagnostic(s[2..])
  }

  /**
   * Display.stringWidth: the source's counting loop, proved to compute Width;
   * printed is the diagnostic line it prints before throwing, empty when it
   * returns normally.
   */
  method StringWidth(s: Text) returns (r: Option<nat>, printed: Text)
    ensures r == Width(s)
    ensures printed == if r.None? then Diagnostic(s) else []
  {
    var sum: nat := 0;
    var i := 0;
    while i < |s|
      invariant 0 <= i <= |s|
      invariant Width(s) == Shift(sum, Width(s[i..]))
      invariant Width(s).None? ==> Width(s[i..]).None? && Diagnostic(s) == Diagnostic(s[i..])
    {
      assert s[i..][1..] == s[i + 1..];
      var c := s[i];
      i := i + 1;
      if !IsSurrogate(c) {
        sum := sum + CharWidth(c);
        continue;
      }
      if HasLowBit(c) || i == |s| {
        return None, Oops1;
      }
      assert s[i - 1..][2..] == s[i + 1..];
      var c2 := s[i];
      i := i + 1;
      if !HasLowBit(c2) {
        return None, Oops2;
      }
      sum := sum + CharWidth(Combine(c, c2));
    }
    assert s[i..] == [];
    return Some(sum), [];
  }

  /** A measured string takes at least one column per two units and at most two columns per unit. */
  lemma {:induction false} WidthBounds(s: Text)
    requires Width(s).Some?
    ensures |s| <= 2 * Width(s).value <= 4 * |s|
    decreases |s|
  {
    if s == [] {
    } else if !IsSurrogate(s[0]) {
      WidthBounds(s[1..]);
    } else {
      WidthBounds(s[2..]);
    }
  }

  /** A string without surrogate units is always measured, at one or two columns per unit. */
  lemma {:induction false} WidthWithoutSurrogates(s: Text)
    requires forall i :: 0 <= i < |s| ==> !IsSurrogate(s[i])
    ensures Width(s).Some? && |s| <= Width(s).value <= 2 * |s|
  {
    if s != [] {
      WidthWithoutSurrogates(s[1..]);
    }
  }

  /** An ASCII string is as wide as it is long. */
  lemma {:induction false} WidthOfAscii(s: Text)
    requires forall i :: 0 <= i < |s| ==> s[i] < 0x80
    ensures Width(s) == Some(|s|)
  {
    if s != [] {
      WidthOfAscii(s[1..]);
    }
  }

  /** A well-formed prefix is measured on its own: widths add up across it. */
  lemma {:induction false} WidthAppend(a: Text, b: Text)
    requires Width(a).Some?
    ensures Width(a + b) == Shift(Width(a).value, Width(b))
    decreases |a|
  {
    if a == [] {
      assert a + b == b;
    } else if !IsSurrogate(a[0]) {
      assert (a + b)[1..] == a[1..] + b;
      WidthAppend(a[1..], b);
    } else {
      assert (a + b)[2..] == a[2..] + b;
      WidthAppend(a[2..], b);
    }
  }

  /**
   * The three malformed shapes at position k: a surrogate with bit 0x400 where
   * a first half is expected, a first half as the last unit, or a first half
   * followed by a unit without bit 0x400.
   */
  predicate MalformedAt(s: Text, k: nat)
    requires k < |s|
  {
    IsSurrogate(s[k]) && (HasLowBit(s[k]) || k + 1 == |s| || !HasLowBit(s[k + 1]))
  }

  /** Measuring fails exactly when, after a well-formed prefix, one of the three malformed shapes follows. */
  lemma {:induction false} WidthFailsIff(s: Text)
    ensures Width(s).None? <==> exists k :: 0 <= k < |s| && MalformedAt(s, k) && Width(s[..k]).Some?
    decreases |s|
  {
    if Width(s).None? {
      WidthFailsWitness(s);
    }
    if k :| 0 <= k < |s| && MalformedAt(s, k) && Width(s[..k]).Some? {
      assert s == s[..k] + s[k..];
      WidthAppend(s[..k], s[k..]);
      assert MalformedAt(s[k..], 0);
    }
  }

  lemma {:induction false} WidthFailsWitness(s: Text)
    requires Width(s).None?
    ensures exists k :: 0 <= k < |s| && MalformedAt(s, k) && Width(s[..k]).Some?
    decreases |s|
  {
    assert s[..0] == [];
    if MalformedAt(s, 0) {
    } else if !IsSurrogate(s[0]) {
      WidthFailsWitness(s[1..]);
      var k :| 0 <= k < |s[1..]| && MalformedAt(s[1..], k) && Width(s[1..][..k]).Some?;
      assert s[..k + 1] == [s[0]] + s[1..][..k];
      WidthAppend([s[0]], s[1..][..k]);
      assert MalformedAt(s, k + 1);
    } else {
      WidthFailsWitness(s[2..]);
      var k :| 0 <= k < |s[2..]| && MalformedAt(s[2..], k) && Width(s[2..][..k]).Some?;
      assert s[..k + 2] == s[..2] + s[2..][..k];
      assert Width(s[..2]).Some? by {
        assert s[..2][2..] == [];
      }
      WidthAppend(s[..2], s[2..][..k]);
      assert MalformedAt(s, k + 2);
    }
  }

  /**
   * The diagnostic names the first malformed position k: "oops1" for a second
   * half where a first half belongs or a trailing first half, "oops2" for a
   * first half followed by a unit without bit 0x400.
   */
  lemma {:induction false} DiagnosticAtFirstFault(s: Text, k: nat)
    requires k < |s| && MalformedAt(s, k) && Width(s[..k]).Some?
    ensures Width(s).None?
    ensures Diagnostic(s) == if HasLowBit(s[k]) || k + 1 == |s| then Oops1 else Oops2
    decreases k
  {
    WidthFailsIff(s);
    if k == 0 {
    } else if !IsSurrogate(s[0]) {
      assert s[1..][..k - 1] == s[..k][1..];
      DiagnosticAtFirstFault(s[1..], k - 1);
    } else {
      assert !(HasLowBit(s[0]) || |s[..k]| == 1 || !HasLowBit(s[1]));
      assert s[2..][..k - 2] == s[..k][2..];
      DiagnosticAtFirstFault(s[2..], k - 2);
    }
  }

  /**
   * The encoding of any sequence of scalar values is measured without error,
   * each code point counting CharWidth of what the source decodes for it.
   */
  lemma {:induction false} WidthOfEncoded(cps: seq<bv32>)
    requires forall i :: 0 <= i < |cps| ==> IsScalar(cps[i])
    ensures Width(EncodeAll(cps)) == Some(MeasuredWidth(cps))
  {
    if cps != [] {
      WidthOfEncoded(cps[1..]);
      WidthOfEncodedHead(cps[0], EncodeAll(cps[1..]));
    }
  }

  /** One encoded scalar value in front of any text adds CharWidth of what the source decodes. */
  lemma WidthOfEncodedHead(cp: bv32, rest: Text)
    requires IsScalar(cp)
    ensures Width(Encode(cp) + rest) == Shift(CharWidth(Measured(cp)), Width(rest))
  {
    var e := Encode(cp);
    if cp >= 0x10000 {
      CombineOfEncoded(cp);
      assert (e + rest)[2..] == rest;
    } else {
      assert (e + rest)[1..] == rest;
    }
  }

  /** The sum of the widths the source assigns to the given scalar values. */
  function MeasuredWidth(cps: seq<bv32>): nat
    requires forall i :: 0 <= i < |cps| ==> IsScalar(cps[i])
  {
    if cps == [] then 0 else CharWidth(Measured(cps[0])) + MeasuredWidth(cps[1..])
  }

  /** The sum of CharWidth of each code point, as a correct decoder would measure it. */
  function TotalWidth(cps: seq<bv32>): nat {
    if cps == [] then 0 else CharWidth(cps[0]) + TotalWidth(cps[1..])
  }

  /** For text in planes 0 and 1 the source measures every code point correctly. */
  lemma {:induction false} WidthOfEncodedLowPlanes(cps: seq<bv32>)
    requires forall i :: 0 <= i < |cps| ==> IsScalar(cps[i]) && cps[i] < 0x20000
    ensures Width(EncodeAll(cps)) == Some(TotalWidth(cps))
  {
    WidthOfEncoded(cps);
    MeasuredIsTotalBelowPlaneTwo(cps);
  }

  lemma {:induction false} MeasuredIsTotalBelowPlaneTwo(cps: seq<bv32>)
    requires forall i :: 0 <= i < |cps| ==> IsScalar(cps[i]) && cps[i] < 0x20000
    ensures MeasuredWidth(cps) == TotalWidth(cps)
  {
    if cps != [] {
      MeasuredIsTotalBelowPlaneTwo(cps[1..]);
    }
  }

  /**
   * U+2F300 (encoded 0xD87C 0xDF00) is decoded by the source as 0x1F300 and so
   * counted two columns wide, although CharWidth of U+2F300 itself is one.
   */
  lemma PlaneTwoMismeasured()
    ensures Encode(0x2f300) == [0xd87c, 0xdf00]
    ensures Width([0xd87c, 0xdf00]) == Some(2)
    ensures CharWidth(0x2f300) == 1
    ensures Rfc2781Decode(0xd87c, 0xdf00) == 0x2f300
  {
    var s: Text := [0xd87c, 0xdf00];
    assert s[2..] == [];
  }
}
