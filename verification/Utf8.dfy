/**
 The loader's UTF-8 codec: UTF-16 strings out to a byte heap and back. The encoding itself is
 section 3 of RFC 3629.
 */
module Utf8 {
  type Unit = bv16    // a UTF-16 code unit
  type Octet = bv8
  type Point = bv32   // what codePointAt answers

  predicate IsHigh(u: Unit) { 0xD800 <= u <= 0xDBFF }
  predicate IsLow(u: Unit) { 0xDC00 <= u <= 0xDFFF }

  /** Surrogates come in pairs, high before low. */
  predicate WellFormed(s: seq<Unit>) {
    if s == [] then true
    else if IsHigh(s[0]) then |s| > 1 && IsLow(s[1]) && WellFormed(s[2..])
    else !IsLow(s[0]) && WellFormed(s[1..])
  }

  predicate PairAt(s: seq<Unit>, i: nat) {
    i + 1 < |s| && IsHigh(s[i]) && IsLow(s[i + 1])
  }

  function FromPair(high: Unit, low: Unit): Point {
    (((high as bv32) - 0xD800) << 10) + ((low as bv32) - 0xDC00) + 0x1_0000
  }

  function CodePointAt(s: seq<Unit>, i: nat): Point
    requires i < |s|
  {
    if PairAt(s, i) then FromPair(s[i], s[i + 1]) else s[i] as bv32
  }

  /** The high surrogate counts in steps of 0x400, the low one in steps of 1, from 0x10000 on. */
  lemma PairByPlaces(high: Unit, low: Unit)
    requires IsHigh(high) && IsLow(low)
    ensures FromPair(high, low) == 0x1_0000 + (high as bv32 - 0xD800) * 0x400 + (low as bv32 - 0xDC00)
  {
  }

  /** Section 2.2 of RFC 2781: a high and then a low surrogate are one code point, every other unit is itself. */
  lemma PointSays(s: seq<Unit>, i: nat)
    requires i < |s|
    ensures if 0xD800 <= s[i] <= 0xDBFF && i + 1 < |s| && 0xDC00 <= s[i + 1] <= 0xDFFF then
              CodePointAt(s, i) == 0x1_0000 + (s[i] as bv32 - 0xD800) * 0x400 + (s[i + 1] as bv32 - 0xDC00)
            else CodePointAt(s, i) == s[i] as bv32
  {
    hide FromPair;
    if PairAt(s, i) {
      PairByPlaces(s[i], s[i + 1]);
    }
  }

  // ----- The octets of one code point -----

  function Low8(x: bv32): Octet { (x & 0xFF) as bv8 }

  /** The marks of the loader's writer: a lead octet, and a tail octet of six bits. */
  function Lead(mark: bv32, x: bv32): Octet { Low8(mark | x) }

  function Tail(x: bv32): Octet { Low8(128 | (x & 63)) }

  function EncodePoint(u: Point): (r: seq<Octet>)
    ensures 1 <= |r| <= 4
  {
    if u <= 0x7F then [Low8(u)]
    else if u <= 0x7FF then [Lead(192, u >> 6), Tail(u)]
    else if u <= 0xFFFF then [Lead(224, u >> 12), Tail(u >> 6), Tail(u)]
    else [Lead(240, u >> 18), Tail(u >> 12), Tail(u >> 6), Tail(u)]
  }

  /** Section 3 of RFC 3629: a lead octet by length, then octets 80-BF of six bits each, in the shortest form. */
  predicate Rfc3629(u: Point, e: seq<Octet>) {
    match |e|
    case 1 => e[0] <= 0x7F && u == e[0] as bv32
    case 2 => 0x80 <= u <= 0x7FF && IsTwo(u, e[0], e[1])
    case 3 => 0x800 <= u <= 0xFFFF && IsThree(u, e[0], e[1], e[2])
    case 4 => 0x1_0000 <= u <= 0x10_FFFF && IsFour(u, e[0], e[1], e[2], e[3])
    case _ => false
  }

  predicate IsTwo(u: Point, b0: Octet, b1: Octet) {
    Leads(b0, 0xC0, 32) && Continues(b1) && u == Joined(Carried(b0, 0xC0), Carried(b1, 0x80))
  }

  predicate IsThree(u: Point, b0: Octet, b1: Octet, b2: Octet) {
    && Leads(b0, 0xE0, 16) && Continues(b1) && Continues(b2)
    && u == Joined(Joined(Carried(b0, 0xE0), Carried(b1, 0x80)), Carried(b2, 0x80))
  }

  predicate IsFour(u: Point, b0: Octet, b1: Octet, b2: Octet, b3: Octet) {
    && Leads(b0, 0xF0, 8) && Continues(b1) && Continues(b2) && Continues(b3)
    && u == Joined(Joined(Joined(Carried(b0, 0xF0), Carried(b1, 0x80)), Carried(b2, 0x80)), Carried(b3, 0x80))
  }

  /** `values` octets from `mark` on lead. */
  predicate Leads(b: Octet, mark: bv32, values: bv32) { mark <= b as bv32 && b as bv32 - mark < values }

  predicate Continues(b: Octet) { 0x80 <= b <= 0xBF }

  function Carried(b: Octet, mark: bv32): bv32 { b as bv32 - mark }

  /** Six more bits. */
  function Joined(high: bv32, low: bv32): bv32 { high * 64 + low }

  lemma TwoOctets(u: Point)
    requires 0x7F < u <= 0x7FF
    ensures IsTwo(u, Lead(192, u >> 6), Tail(u))
  {
  }

  lemma ThreeOctets(u: Point)
    requires 0x7FF < u <= 0xFFFF
    ensures IsThree(u, Lead(224, u >> 12), Tail(u >> 6), Tail(u))
  {
  }

  lemma FourOctets(u: Point)
    requires 0xFFFF < u <= 0x10_FFFF
    ensures IsFour(u, Lead(240, u >> 18), Tail(u >> 12), Tail(u >> 6), Tail(u))
  {
  }

  /** The octets written for a code point are the ones RFC 3629 assigns it. */
  lemma PointIsRfc3629(u: Point)
    requires u <= 0x10_FFFF
    ensures Rfc3629(u, EncodePoint(u))
  {
    hide IsTwo, IsThree, IsFour;
    if u <= 0x7F {
      OneOctet(u);
    } else if u <= 0x7FF {
      TwoOctets(u);
      hide Low8, Lead, Tail;
    } else if u <= 0xFFFF {
      ThreeOctets(u);
      hide Low8, Lead, Tail;
    } else {
      FourOctets(u);
      hide Low8, Lead, Tail;
    }
  }

  lemma OneOctet(u: Point)
    requires u <= 0x7F
    ensures Low8(u) <= 0x7F && Low8(u) as bv32 == u
  {
  }

  /** How many units the point at the front of `s` takes. */
  function UnitsOf(s: seq<Unit>): (n: nat)
    requires s != []
    ensures 1 <= n <= |s|
  {
    if PairAt(s, 0) then 2 else 1
  }

  function Encode(s: seq<Unit>): seq<Octet> {
    if s == [] then [] else EncodePoint(CodePointAt(s, 0)) + Encode(s[UnitsOf(s)..])
  }

  /** As many whole points of `s` as fit in `room` octets. */
  function EncodeWithin(s: seq<Unit>, room: nat): (r: seq<Octet>)
    ensures |r| <= room
  {
    if s == [] then []
    else
      var e := EncodePoint(CodePointAt(s, 0));
      if |e| > room then [] else e + EncodeWithin(s[UnitsOf(s)..], room - |e|)
  }

  lemma FromPairIsBig(high: Unit, low: Unit)
    requires IsHigh(high) && IsLow(low)
    ensures 0x1_0000 <= FromPair(high, low) <= 0x10_FFFF
  {
  }

  lemma BigIsPair(s: seq<Unit>, i: nat)
    requires i < |s|
    ensures CodePointAt(s, i) > 0xFFFF <==> PairAt(s, i)
  {
    if PairAt(s, i) {
      FromPairIsBig(s[i], s[i + 1]);
    }
  }

  lemma PointSize(u: Point)
    ensures |EncodePoint(u)| == if u <= 0x7F then 1 else if u <= 0x7FF then 2 else if u <= 0xFFFF then 3 else 4
  {
    hide Low8, Lead, Tail;
  }

  /** The counter's tests, on a string whose surrogates are paired. */
  lemma LengthStep(str: seq<Unit>, i: nat)
    requires i < |str| && WellFormed(str[i..])
    ensures var c := str[i];
            var n := if 0xD800 <= c <= 0xDFFF then 2 else 1;
            && i + n <= |str| && WellFormed(str[i + n..])
            && |Encode(str[i..])| == |Encode(str[i + n..])| +
                 (if c <= 0x7F then 1 else if c <= 0x7FF then 2 else if 0xD800 <= c <= 0xDFFF then 4 else 3)
  {
    var rest := str[i..];
    BigIsPair(rest, 0);
    PointSize(CodePointAt(rest, 0));
    hide EncodePoint, FromPair;
    assert rest[1..] == str[i + 1..];
    assert i + 2 <= |str| ==> rest[2..] == str[i + 2..];
  }

  /** What the loop adds up: four octets for any surrogate and the unit after it, whatever that is. */
  function Counted(str: seq<Unit>): nat {
    if str == [] then 0
    else if str[0] <= 0x7F then 1 + Counted(str[1..])
    else if str[0] <= 0x7FF then 2 + Counted(str[1..])
    else if 0xD800 <= str[0] <= 0xDFFF then 4 + if |str| > 1 then Counted(str[2..]) else 0
    else 3 + Counted(str[1..])
  }

  /** On well-formed strings the count is the number of octets of the encoding. */
  lemma {:induction false} CountIsEncoded(str: seq<Unit>)
    requires WellFormed(str)
    ensures Counted(str) == |Encode(str)|
  {
    if str != [] {
      assert str[0..] == str;
      LengthStep(str, 0);
      CountIsEncoded(str[if 0xD800 <= str[0] <= 0xDFFF then 2 else 1..]);
    }
  }

  /**
   A lone surrogate is written in three octets, and the unit after it in its own; the count has four for
   both, which is too few for any unit past ASCII. The text is then cut short where room is made by count.
   */
  lemma LoneSurrogateCount(c: Unit, u: Unit)
    requires 0xD800 <= c <= 0xDFFF && !PairAt([c, u], 0)
    ensures Counted([c, u]) == 4
    ensures |Encode([c, u])| == 3 + if u <= 0x7F then 1 else if u <= 0x7FF then 2 else 3
  {
    assert [c, u][2..] == [];
    UnitSize(c);
    UnitSize(u);
    TwoApart(c, u);
  }

  lemma TwoApart(c: Unit, u: Unit)
    requires !PairAt([c, u], 0)
    ensures Encode([c, u]) == EncodePoint(c as bv32) + EncodePoint(u as bv32)
  {
    hide EncodePoint, FromPair;
    assert [c, u][1..] == [u];
    OneApart(u);
  }

  lemma OneApart(u: Unit)
    ensures Encode([u]) == EncodePoint(u as bv32)
  {
    hide EncodePoint, FromPair;
    assert [u][1..] == [];
    assert EncodePoint(u as bv32) + [] == EncodePoint(u as bv32);
  }

  lemma UnitSize(u: Unit)
    ensures |EncodePoint(u as bv32)| == if u <= 0x7F then 1 else if u <= 0x7FF then 2 else 3
  {
  }

  method LengthBytesUTF8(str: seq<Unit>) returns (len: nat)
    ensures len == Counted(str) && (WellFormed(str) ==> len == |Encode(str)|)
  {
    if WellFormed(str) {
      CountIsEncoded(str);
    }
    hide WellFormed, Encode, Counted;
    len := 0;
    var i := 0;
    assert str[0..] == str;
    while i < |str|
      invariant 0 <= i
      invariant Counted(str) == len + if i <= |str| then Counted(str[i..]) else 0
    {
      var c := str[i];
      CountStep(str, i);
      if c <= 0x7F {
        len := len + 1;
      } else if c <= 0x7FF {
        len := len + 2;
      } else if 0xD800 <= c <= 0xDFFF {
        len := len + 4;
        i := i + 1;
      } else {
        len := len + 3;
      }
      i := i + 1;
    }
    CountEnd(str);
  }

  lemma CountStep(str: seq<Unit>, i: nat)
    requires i < |str|
    ensures var c := str[i];
            var next := i + if 0xD800 <= c <= 0xDFFF then 2 else 1;
            Counted(str[i..]) ==
              (if c <= 0x7F then 1 else if c <= 0x7FF then 2 else if 0xD800 <= c <= 0xDFFF then 4 else 3) +
              if next <= |str| then Counted(str[next..]) else 0
  {
    var rest := str[i..];
    assert rest[1..] == str[i + 1..];
    assert i + 2 <= |str| ==> rest[2..] == str[i + 2..];
  }

  lemma CountEnd(str: seq<Unit>)
    ensures Counted(str[|str|..]) == 0
  {
  }

  /** `now` is `was` with `put` written over it at `start`. */
  ghost predicate Spliced(was: seq<Octet>, now: seq<Octet>, start: nat, put: seq<Octet>) {
    && start + |put| <= |was|
    && now == was[..start] + put + was[start + |put|..]
  }

  lemma SplicedAround(was: seq<Octet>, now: seq<Octet>, start: nat, put: seq<Octet>)
    requires start + |put| <= |was| == |now| && now[start..start + |put|] == put
    requires forall k :: 0 <= k < start || start + |put| <= k < |now| ==> now[k] == was[k]
    ensures Spliced(was, now, start, put)
  {
    assert now == now[..start] + now[start..start + |put|] + now[start + |put|..];
    assert now[..start] == was[..start] && now[start + |put|..] == was[start + |put|..];
  }

  lemma SplicedNone(was: seq<Octet>, start: nat)
    requires start <= |was|
    ensures Spliced(was, was, start, [])
  {
  }

  lemma SplicedOne(before: seq<Octet>, now: seq<Octet>, at: nat, x: Octet)
    requires at < |before| && now == before[at := x]
    ensures Spliced(before, now, at, [x])
  {
  }

  lemma SplicedFurther(was: seq<Octet>, before: seq<Octet>, now: seq<Octet>, start: nat, put: seq<Octet>,
                       more: seq<Octet>)
    requires Spliced(was, before, start, put) && Spliced(before, now, start + |put|, more)
    ensures Spliced(was, now, start, put + more)
  {
    var at, next := start + |put|, start + |put| + |more|;
    assert before[..at] == was[..start] + put;
    assert before[next..] == was[next..];
  }

  /** One turn of the writer's loop: the octets of `u`, if they fit below `endIdx`. */
  method PutPoint(u: Point, heap: array<Octet>, outIdx: nat, endIdx: nat) returns (fits: bool, next: nat)
    requires outIdx <= endIdx <= heap.Length
    modifies heap
    ensures fits <==> outIdx + |EncodePoint(u)| <= endIdx
    ensures next == if fits then outIdx + |EncodePoint(u)| else outIdx
    ensures if fits then Spliced(old(heap[..]), heap[..], outIdx, EncodePoint(u)) else heap[..] == old(heap[..])
  {
    hide Low8, Lead, Tail, Spliced;
    ghost var was, e := heap[..], EncodePoint(u);
    fits, next := false, outIdx;
    if u <= 0x7F {
      if outIdx >= endIdx { return; }
      heap[next] := Low8(u);
      next := next + 1;
      assert heap[outIdx..next] == e;
    } else if u <= 0x7FF {
      if outIdx + 1 >= endIdx { return; }
      heap[next] := Lead(192, u >> 6);
      heap[next + 1] := Tail(u);
      next := next + 2;
      assert heap[outIdx..next] == e;
    } else if u <= 0xFFFF {
      if outIdx + 2 >= endIdx { return; }
      heap[next] := Lead(224, u >> 12);
      heap[next + 1] := Tail(u >> 6);
      heap[next + 2] := Tail(u);
      next := next + 3;
      assert heap[outIdx..next] == e;
    } else {
      if outIdx + 3 >= endIdx { return; }
      heap[next] := Lead(240, u >> 18);
      heap[next + 1] := Tail(u >> 12);
      heap[next + 2] := Tail(u >> 6);
      heap[next + 3] := Tail(u);
      next := next + 4;
      assert heap[outIdx..next] == e;
    }
    hide EncodePoint;
    fits := true;
    SplicedAround(was, heap[..], outIdx, e);
  }

  /** Writes within `maxBytesToWrite` octets, the last of them a NUL. */
  method StringToUTF8Array(str: seq<Unit>, heap: array<Octet>, start: nat, maxBytesToWrite: nat) returns (written: nat)
    requires start + maxBytesToWrite <= heap.Length
    modifies heap
    ensures maxBytesToWrite == 0 ==> written == 0 && heap[..] == old(heap[..])
    ensures maxBytesToWrite > 0 ==>
              var out := EncodeWithin(str, maxBytesToWrite - 1);
              && written == |out|
              && Spliced(old(heap[..]), heap[..], start, out + [0])
  {
    hide *;
    if maxBytesToWrite == 0 {
      return 0;
    }
    var outIdx := start;
    var endIdx := start + maxBytesToWrite - 1;
    ghost var was := heap[..];
    ghost var out, done: seq<Octet> := EncodeWithin(str, endIdx - start), [];
    var i := 0;
    SplicedNone(was, start);
    ComingAll(str, endIdx - start);
    while i < |str|
      invariant 0 <= i <= |str| && start <= outIdx <= endIdx && outIdx == start + |done|
      invariant Spliced(was, heap[..], start, done) && Coming(str, i, endIdx - outIdx, done, out)
      decreases |str| - i
    {
      var u := CodePointAt(str, i);
      WithinStep(str, i, endIdx - outIdx, done, out);
      ghost var before := heap[..];
      var fits, next := PutPoint(u, heap, outIdx, endIdx);
      if !fits {
        break;
      }
      SplicedFurther(was, before, heap[..], start, done, EncodePoint(u));
      done := done + EncodePoint(u);
      outIdx := next;
      i := i + 1;
      if u > 0xFFFF {
        i := i + 1;
      }
    }
    if i == |str| {
      WithinEnd(str, endIdx - outIdx, done, out);
    }
    assert out == done;
    ghost var before := heap[..];
    heap[outIdx] := 0;
    SplicedOne(before, heap[..], outIdx, 0);
    SplicedFurther(was, before, heap[..], start, done, [0]);
    written := outIdx - start;
  }

  /** Of `out`, `done` is written and the string from `i` on may still use `room`. */
  ghost predicate Coming(s: seq<Unit>, i: nat, room: nat, done: seq<Octet>, out: seq<Octet>) {
    i <= |s| && out == done + EncodeWithin(s[i..], room)
  }

  lemma ComingAll(s: seq<Unit>, room: nat)
    ensures Coming(s, 0, room, [], EncodeWithin(s, room))
  {
    assert s[0..] == s;
  }

  lemma WithinEnd(s: seq<Unit>, room: nat, done: seq<Octet>, out: seq<Octet>)
    requires Coming(s, |s|, room, done, out)
    ensures out == done
  {
    assert s[|s|..] == [];
  }

  /** One turn of the writer: a point more, or the end when it has no room. */
  lemma WithinStep(s: seq<Unit>, i: nat, room: nat, done: seq<Octet>, out: seq<Octet>)
    requires i < |s| && Coming(s, i, room, done, out)
    ensures var e := EncodePoint(CodePointAt(s, i));
            var n := if CodePointAt(s, i) > 0xFFFF then 2 else 1;
            && i + n <= |s|
            && (if |e| > room then out == done else Coming(s, i + n, room - |e|, done + e, out))
  {
    hide EncodePoint;
    PointFrom(s, i, 0);
    BigIsPair(s, i);
    var rest := s[i..];
    assert rest[UnitsOf(rest)..] == s[i + UnitsOf(rest)..];
  }

  lemma PointFrom(s: seq<Unit>, i: nat, j: nat)
    requires i + j < |s|
    ensures CodePointAt(s[i..], j) == CodePointAt(s, i + j) && (PairAt(s[i..], j) <==> PairAt(s, i + j))
  {
  }

  lemma PointUpTo(s: seq<Unit>, k: nat)
    requires s != [] && UnitsOf(s) <= k <= |s|
    ensures CodePointAt(s[..k], 0) == CodePointAt(s, 0) && UnitsOf(s[..k]) == UnitsOf(s)
  {
  }

  // ----- Truncation -----

  /** A position between two points, never inside a pair. */
  predicate Boundary(s: seq<Unit>, k: nat) {
    k <= |s| && (k == 0 || (s != [] && UnitsOf(s) <= k && Boundary(s[UnitsOf(s)..], k - UnitsOf(s))))
  }

  /** What was written is the encoding of a prefix cut between points; all of it when it fits. */
  lemma {:induction false} TruncatesAtBoundary(s: seq<Unit>, room: nat) returns (k: nat)
    ensures Boundary(s, k) && EncodeWithin(s, room) == Encode(s[..k])
    ensures k < |s| ==> |Encode(s[..k])| + |EncodePoint(CodePointAt(s, k))| > room
    ensures |Encode(s)| <= room ==> k == |s|
    decreases |s|
  {
    hide EncodePoint, CodePointAt;
    k := 0;
    assert s[..0] == [];
    if s != [] {
      var e := EncodePoint(CodePointAt(s, 0));
      var n := UnitsOf(s);
      if |e| <= room {
        var j := TruncatesAtBoundary(s[n..], room - |e|);
        k := n + j;
        assert s[..k][n..] == s[n..][..j];
        PointUpTo(s, k);
        if j < |s[n..]| {
          PointFrom(s, n, j);
        }
      }
    }
    if k == |s| {
      assert s[..k] == s;
    }
  }

  // ----- Decoding -----

  /** An octet of the heap; past its end a typed array answers `undefined`, which counts as 0. */
  function OctetAt(b: seq<Octet>, i: nat): bv32 { if i < |b| then b[i] as bv32 else 0 }

  function Two(b0: bv32, b1: bv32): Point { ((b0 & 31) << 6) | (b1 & 63) }
  function Three(b0: bv32, b1: bv32, b2: bv32): Point { ((b0 & 15) << 12) | ((b1 & 63) << 6) | (b2 & 63) }
  function Four(b0: bv32, b1: bv32, b2: bv32, b3: bv32): Point {
    ((b0 & 7) << 18) | ((b1 & 63) << 12) | ((b2 & 63) << 6) | (b3 & 63)
  }

  function Low16(x: bv32): Unit { (x & 0xFFFF) as bv16 }

  function UnitsFrom(u: Point): seq<Unit> {
    if u < 0x1_0000 then [Low16(u)]
    else
      var ch := u - 0x1_0000;
      [Low16(0xD800 | (ch >> 10)), Low16(0xDC00 | (ch & 0x3FF))]
  }

  /** One turn of the reader's loop at `idx`: what it appends, and how far it moves. */
  function DecodeAt(b: seq<Octet>, idx: nat): (r: (seq<Unit>, nat))
    ensures idx < r.1
  {
    var u0 := OctetAt(b, idx);
    var u1 := OctetAt(b, idx + 1);
    var u2 := OctetAt(b, idx + 2);
    if u0 & 128 == 0 then ([Low16(u0)], idx + 1)
    else if u0 & 224 == 192 then ([Low16(Two(u0, u1))], idx + 2)
    else if u0 & 240 == 224 then (UnitsFrom(Three(u0, u1, u2)), idx + 3)
    else (UnitsFrom(Four(u0, u1, u2, OctetAt(b, idx + 3))), idx + 4)
  }

  function Decode(b: seq<Octet>, idx: nat, end: nat): seq<Unit>
    decreases end - idx
  {
    if idx >= end then [] else DecodeAt(b, idx).0 + Decode(b, DecodeAt(b, idx).1, end)
  }

  /** Where reading stops: at the first NUL, at the heap's end, or at the limit, whichever is first. */
  predicate EndsAt(heap: seq<Octet>, start: nat, limited: bool, maxBytesToRead: nat, ignoreNul: bool, end: nat) {
    if ignoreNul then end == if limited then start + maxBytesToRead else start
    else
      && start <= end && (start < end ==> end <= |heap|)
      && (forall k :: start <= k < end ==> heap[k] != 0)
      && (limited ==> end <= start + maxBytesToRead)
      && (end >= |heap| || heap[end] == 0 || (limited && end == start + maxBytesToRead))
  }

  lemma OneEnd(heap: seq<Octet>, start: nat, limited: bool, maxBytesToRead: nat, ignoreNul: bool, a: nat, b: nat)
    requires EndsAt(heap, start, limited, maxBytesToRead, ignoreNul, a)
    requires EndsAt(heap, start, limited, maxBytesToRead, ignoreNul, b)
    ensures a == b
  {
  }

  /** Where a string ends: at a NUL, at the heap's end, or at the limit. */
  method FindStringEnd(heap: array<Octet>, start: nat, limited: bool, maxBytesToRead: nat, ignoreNul: bool)
    returns (end: nat)
    ensures EndsAt(heap[..], start, limited, maxBytesToRead, ignoreNul, end)
  {
    if ignoreNul {
      return if limited then start + maxBytesToRead else start;
    }
    end := start;
    while end < heap.Length && heap[end] != 0 && !(limited && end >= start + maxBytesToRead)
      invariant start <= end && (start < end ==> end <= heap.Length)
      invariant forall k :: start <= k < end ==> heap[k] != 0
      invariant limited ==> end <= start + maxBytesToRead
    {
      end := end + 1;
    }
  }

  lemma DecodeStep(b: seq<Octet>, idx: nat, end: nat)
    requires idx < end
    ensures Decode(b, idx, end) == DecodeAt(b, idx).0 + Decode(b, DecodeAt(b, idx).1, end)
  {
  }

  lemma DecodeEnd(b: seq<Octet>, idx: nat, end: nat)
    requires idx >= end
    ensures Decode(b, idx, end) == []
  {
  }

  /** The reader without the platform's decoder. */
  method UTF8ArrayToString(heap: array<Octet>, start: nat, limited: bool, maxBytesToRead: nat, ignoreNul: bool)
    returns (str: seq<Unit>)
    ensures exists end: nat ::
              EndsAt(heap[..], start, limited, maxBytesToRead, ignoreNul, end) && str == Decode(heap[..], start, end)
    ensures forall end: nat | EndsAt(heap[..], start, limited, maxBytesToRead, ignoreNul, end) ::
              str == Decode(heap[..], start, end)
  {
    hide Two, Three, Four, Low16, UnitsFrom, OctetAt, Decode;
    var endPtr := FindStringEnd(heap, start, limited, maxBytesToRead, ignoreNul);
    str := [];
    var idx := start;
    var b := heap[..];
    while idx < endPtr
      invariant start <= idx
      invariant Decode(b, start, endPtr) == str + Decode(b, idx, endPtr)
      decreases if idx < endPtr then endPtr - idx else 0
    {
      ghost var here, was := idx, str;
      DecodeStep(b, idx, endPtr);
      var u0 := OctetAt(b, idx);
      idx := idx + 1;
      if u0 & 128 == 0 {
        str := str + [Low16(u0)];
      } else {
        var u1 := OctetAt(b, idx);
        idx := idx + 1;
        if u0 & 224 == 192 {
          str := str + [Low16(Two(u0, u1))];
        } else {
          var u2 := OctetAt(b, idx);
          idx := idx + 1;
          if u0 & 240 == 224 {
            str := str + UnitsFrom(Three(u0, u1, u2));
          } else {
            str := str + UnitsFrom(Four(u0, u1, u2, OctetAt(b, idx)));
            idx := idx + 1;
          }
        }
      }
      assert str == was + DecodeAt(b, here).0 && idx == DecodeAt(b, here).1;
    }
    DecodeEnd(b, idx, endPtr);
    assert str == Decode(b, start, endPtr) && b == heap[..];
    forall end: nat | EndsAt(b, start, limited, maxBytesToRead, ignoreNul, end)
      ensures end == endPtr
    {
      OneEnd(b, start, limited, maxBytesToRead, ignoreNul, end, endPtr);
    }
  }

  // ----- The reader inverts the writer -----

  /** How many octets the lead octet announces, by the reader's tests. */
  function Announced(b0: bv32): nat {
    if b0 & 128 == 0 then 1 else if b0 & 224 == 192 then 2 else if b0 & 240 == 224 then 3 else 4
  }

  lemma OneRoundTrip(u: Point)
    requires u <= 0x7F
    ensures Announced(Low8(u) as bv32) == 1 && Low8(u) as bv32 == u
  {
  }

  lemma TwoRoundTrip(u: Point)
    requires 0x7F < u <= 0x7FF
    ensures var b0, b1 := Lead(192, u >> 6) as bv32, Tail(u) as bv32;
            Announced(b0) == 2 && Two(b0, b1) == u
  {
  }

  lemma ThreeRoundTrip(u: Point)
    requires 0x7FF < u <= 0xFFFF
    ensures var b0, b1, b2 := Lead(224, u >> 12) as bv32, Tail(u >> 6) as bv32, Tail(u) as bv32;
            Announced(b0) == 3 && Three(b0, b1, b2) == u
  {
  }

  lemma FourRoundTrip(u: Point)
    requires 0xFFFF < u <= 0x10_FFFF
    ensures var b0, b1, b2, b3 := Lead(240, u >> 18) as bv32, Tail(u >> 12) as bv32,
                                  Tail(u >> 6) as bv32, Tail(u) as bv32;
            Announced(b0) == 4 && Four(b0, b1, b2, b3) == u
  {
  }

  lemma PairBits(h: bv32, l: bv32)
    requires 0xD800 <= h <= 0xDBFF && 0xDC00 <= l <= 0xDFFF
    ensures var ch := (((h - 0xD800) << 10) + (l - 0xDC00) + 0x1_0000) - 0x1_0000;
            0xD800 | (ch >> 10) == h && 0xDC00 | (ch & 0x3FF) == l
  {
  }

  lemma Low16Widened(x: Unit)
    ensures Low16(x as bv32) == x
  {
  }

  lemma UnitsRoundTrip(s: seq<Unit>)
    requires s != []
    ensures UnitsFrom(CodePointAt(s, 0)) == s[..UnitsOf(s)]
    ensures CodePointAt(s, 0) <= 0x10_FFFF
  {
    hide Low16;
    Low16Widened(s[0]);
    if PairAt(s, 0) {
      FromPairIsBig(s[0], s[1]);
      PairBits(s[0] as bv32, s[1] as bv32);
      Low16Widened(s[1]);
      assert s[..2] == [s[0], s[1]];
    } else {
      assert s[..1] == [s[0]];
    }
  }

  /** The octets at `idx` are those of `e`. */
  predicate Holds(b: seq<Octet>, idx: nat, e: seq<Octet>) {
    idx + |e| <= |b| && b[idx..idx + |e|] == e
  }

  lemma HeldOctets(b: seq<Octet>, idx: nat, e: seq<Octet>)
    requires Holds(b, idx, e)
    ensures idx + |e| <= |b| && forall k :: 0 <= k < |e| ==> b[idx + k] == e[k]
  {
    forall k | 0 <= k < |e|
      ensures b[idx + k] == e[k]
    {
      assert e[k] == b[idx..idx + |e|][k];
    }
  }

  lemma DecodeOne(b: seq<Octet>, idx: nat, u: Point)
    requires Announced(OctetAt(b, idx)) == 1 && OctetAt(b, idx) == u
    ensures DecodeAt(b, idx) == ([Low16(u)], idx + 1)
  {
  }

  lemma DecodeTwo(b: seq<Octet>, idx: nat, u: Point)
    requires Announced(OctetAt(b, idx)) == 2
    requires Two(OctetAt(b, idx), OctetAt(b, idx + 1)) == u
    ensures DecodeAt(b, idx) == ([Low16(u)], idx + 2)
  {
    hide OctetAt, Low16, Two, Three, Four, UnitsFrom;
  }

  lemma DecodeThree(b: seq<Octet>, idx: nat, u: Point)
    requires Announced(OctetAt(b, idx)) == 3
    requires Three(OctetAt(b, idx), OctetAt(b, idx + 1), OctetAt(b, idx + 2)) == u
    ensures DecodeAt(b, idx) == (UnitsFrom(u), idx + 3)
  {
    hide OctetAt, Low16, Two, Three, Four, UnitsFrom;
  }

  lemma DecodeFour(b: seq<Octet>, idx: nat, u: Point)
    requires Announced(OctetAt(b, idx)) == 4
    requires Four(OctetAt(b, idx), OctetAt(b, idx + 1), OctetAt(b, idx + 2), OctetAt(b, idx + 3)) == u
    ensures DecodeAt(b, idx) == (UnitsFrom(u), idx + 4)
  {
    hide OctetAt, Low16, Two, Three, Four, UnitsFrom;
  }

  /** The points of one unit. */
  lemma UnitAlone(u: Point)
    requires u <= 0xFFFF
    ensures UnitsFrom(u) == [Low16(u)]
  {
  }

  lemma BackOne(b: seq<Octet>, idx: nat, u: Point)
    requires u <= 0x7F && Holds(b, idx, [Low8(u)])
    ensures DecodeAt(b, idx) == (UnitsFrom(u), idx + 1)
  {
    hide Announced, DecodeAt, UnitsFrom, Holds, Low8, Lead, Tail, Low16;
    var e := [Low8(u)];
    HeldOctets(b, idx, e);
    assert b[idx + 0] == e[0];
    OneRoundTrip(u);
    DecodeOne(b, idx, u);
    UnitAlone(u);
  }

  lemma BackTwo(b: seq<Octet>, idx: nat, u: Point, o0: Octet, o1: Octet)
    requires u <= 0xFFFF && Announced(o0 as bv32) == 2 && Two(o0 as bv32, o1 as bv32) == u
    requires Holds(b, idx, [o0, o1])
    ensures DecodeAt(b, idx) == (UnitsFrom(u), idx + 2)
  {
    hide Announced, DecodeAt, UnitsFrom, Holds, Low16, Two;
    var e := [o0, o1];
    HeldOctets(b, idx, e);
    assert b[idx + 0] == e[0] && b[idx + 1] == e[1];
    DecodeTwo(b, idx, u);
    UnitAlone(u);
  }

  lemma BackThree(b: seq<Octet>, idx: nat, u: Point, o0: Octet, o1: Octet, o2: Octet)
    requires Announced(o0 as bv32) == 3 && Three(o0 as bv32, o1 as bv32, o2 as bv32) == u
    requires Holds(b, idx, [o0, o1, o2])
    ensures DecodeAt(b, idx) == (UnitsFrom(u), idx + 3)
  {
    hide Announced, DecodeAt, UnitsFrom, Holds, Low16, Three;
    var e := [o0, o1, o2];
    HeldOctets(b, idx, e);
    assert b[idx + 0] == e[0] && b[idx + 1] == e[1] && b[idx + 2] == e[2];
    DecodeThree(b, idx, u);
  }

  lemma BackFour(b: seq<Octet>, idx: nat, u: Point, o0: Octet, o1: Octet, o2: Octet, o3: Octet)
    requires Announced(o0 as bv32) == 4 && Four(o0 as bv32, o1 as bv32, o2 as bv32, o3 as bv32) == u
    requires Holds(b, idx, [o0, o1, o2, o3])
    ensures DecodeAt(b, idx) == (UnitsFrom(u), idx + 4)
  {
    hide Announced, DecodeAt, UnitsFrom, Holds, Low16, Four;
    var e := [o0, o1, o2, o3];
    HeldOctets(b, idx, e);
    assert b[idx + 0] == e[0] && b[idx + 1] == e[1] && b[idx + 2] == e[2] && b[idx + 3] == e[3];
    DecodeFour(b, idx, u);
  }

  lemma PointTwo(b: seq<Octet>, idx: nat, u: Point)
    requires 0x7F < u <= 0x7FF && Holds(b, idx, EncodePoint(u))
    ensures DecodeAt(b, idx) == (UnitsFrom(u), idx + 2)
  {
    hide Announced, DecodeAt, UnitsFrom, Holds, Low8, Lead, Tail, Two;
    TwoRoundTrip(u);
    BackTwo(b, idx, u, Lead(192, u >> 6), Tail(u));
  }

  lemma PointThree(b: seq<Octet>, idx: nat, u: Point)
    requires 0x7FF < u <= 0xFFFF && Holds(b, idx, EncodePoint(u))
    ensures DecodeAt(b, idx) == (UnitsFrom(u), idx + 3)
  {
    hide Announced, DecodeAt, UnitsFrom, Holds, Low8, Lead, Tail, Three;
    ThreeRoundTrip(u);
    BackThree(b, idx, u, Lead(224, u >> 12), Tail(u >> 6), Tail(u));
  }

  lemma PointFour(b: seq<Octet>, idx: nat, u: Point)
    requires 0xFFFF < u <= 0x10_FFFF && Holds(b, idx, EncodePoint(u))
    ensures DecodeAt(b, idx) == (UnitsFrom(u), idx + 4)
  {
    hide Announced, DecodeAt, UnitsFrom, Holds, Low8, Lead, Tail, Four;
    FourRoundTrip(u);
    BackFour(b, idx, u, Lead(240, u >> 18), Tail(u >> 12), Tail(u >> 6), Tail(u));
  }

  lemma PointRoundTrip(b: seq<Octet>, idx: nat, u: Point)
    requires u <= 0x10_FFFF && Holds(b, idx, EncodePoint(u))
    ensures DecodeAt(b, idx) == (UnitsFrom(u), idx + |EncodePoint(u)|)
  {
    PointSize(u);
    hide DecodeAt, UnitsFrom, Holds, Low8, Lead, Tail;
    if u <= 0x7F {
      BackOne(b, idx, u);
    } else {
      hide EncodePoint;
      if u <= 0x7FF {
        PointTwo(b, idx, u);
      } else if u <= 0xFFFF {
        PointThree(b, idx, u);
      } else {
        PointFour(b, idx, u);
      }
    }
  }

  /** Decoding the octets of a string gives the string, lone surrogates included. */
  lemma {:induction false} DecodeEncode(b: seq<Octet>, idx: nat, s: seq<Unit>)
    requires Holds(b, idx, Encode(s))
    ensures Decode(b, idx, idx + |Encode(s)|) == s
    decreases |s|
  {
    hide EncodePoint, DecodeAt, CodePointAt, UnitsFrom;
    if s != [] {
      var u := CodePointAt(s, 0);
      var n := UnitsOf(s);
      var e := EncodePoint(u);
      var end := idx + |Encode(s)|;
      UnitsRoundTrip(s);
      assert b[idx..end][..|e|] == e && b[idx..end][|e|..] == Encode(s[n..]);
      assert b[idx..idx + |e|] == e && b[idx + |e|..end] == Encode(s[n..]);
      PointRoundTrip(b, idx, u);
      DecodeEncode(b, idx + |e|, s[n..]);
      assert s == s[..n] + s[n..];
    }
  }

  lemma {:induction false} EncodeHasNoNul(s: seq<Unit>)
    requires 0 !in s
    ensures 0 !in Encode(s)
    decreases |s|
  {
    if s != [] {
      var u := CodePointAt(s, 0);
      assert s[0] in s && forall c :: c in s[UnitsOf(s)..] ==> c in s;
      EncodeHasNoNul(s[UnitsOf(s)..]);
      PointHasNoNul(u);
      if PairAt(s, 0) {
        FromPairIsBig(s[0], s[1]);
      }
    }
  }

  lemma PointHasNoNul(u: Point)
    requires 0 < u <= 0x10_FFFF
    ensures 0 !in EncodePoint(u)
  {
  }

  lemma HoldsHere(b: seq<Octet>, idx: nat, e: seq<Octet>)
    requires idx + |e| <= |b| && b[idx..idx + |e|] == e
    ensures Holds(b, idx, e)
  {
  }

  lemma StopsAtNul(heap: seq<Octet>, start: nat, end: nat, limited: bool, maxBytesToRead: nat)
    requires start <= end < |heap| && heap[end] == 0 && (limited ==> end <= start + maxBytesToRead)
    requires forall k :: start <= k < end ==> heap[k] != 0
    ensures EndsAt(heap, start, limited, maxBytesToRead, false, end)
  {
  }

  /** A string without NUL whose encoding lies in the heap before a NUL is read back unchanged. */
  lemma EncodedReadsBack(s: seq<Unit>, heap: seq<Octet>, start: nat, limited: bool, maxBytesToRead: nat, end: nat)
    requires 0 !in s && start + |Encode(s)| < |heap| && (limited ==> |Encode(s)| <= maxBytesToRead)
    requires heap[start..start + |Encode(s)|] == Encode(s) && heap[start + |Encode(s)|] == 0
    requires EndsAt(heap, start, limited, maxBytesToRead, false, end)
    ensures Decode(heap, start, end) == s
  {
    hide *;
    EncodeHasNoNul(s);
    var e := Encode(s);
    forall k | start <= k < start + |e|
      ensures heap[k] != 0
    {
      assert heap[k] == heap[start..start + |e|][k - start] == e[k - start];
      assert e[k - start] in e;
    }
    StopsAtNul(heap, start, start + |e|, limited, maxBytesToRead);
    OneEnd(heap, start, limited, maxBytesToRead, false, end, start + |e|);
    HoldsHere(heap, start, e);
    DecodeEncode(heap, start, s);
  }

  lemma PrefixHasNo(s: seq<Unit>, k: nat)
    requires 0 !in s && k <= |s|
    ensures 0 !in s[..k]
  {
  }

  lemma SplicedHolds(was: seq<Octet>, now: seq<Octet>, start: nat, e: seq<Octet>)
    requires Spliced(was, now, start, e + [0])
    ensures start + |e| < |now| && now[start..start + |e|] == e && now[start + |e|] == 0
  {
  }

  lemma BoundaryInside(s: seq<Unit>, k: nat)
    requires Boundary(s, k)
    ensures k <= |s|
  {
  }

  /**
   Writing and reading back: of a string without NUL, however little room it was given, what returns is
   the prefix that ends at the last boundary between points that still fits - the whole string when it
   all does.
   */
  lemma WrittenReadsBack(str: seq<Unit>, was: seq<Octet>, now: seq<Octet>, start: nat, maxBytesToWrite: nat,
                         limited: bool, maxBytesToRead: nat, end: nat)
    returns (k: nat)
    requires 0 !in str && maxBytesToWrite > 0 && (limited ==> maxBytesToWrite - 1 <= maxBytesToRead)
    requires Spliced(was, now, start, EncodeWithin(str, maxBytesToWrite - 1) + [0])
    requires EndsAt(now, start, limited, maxBytesToRead, false, end)
    ensures Boundary(str, k) && Decode(now, start, end) == str[..k]
    ensures k < |str| ==> |Encode(str[..k])| + |EncodePoint(CodePointAt(str, k))| > maxBytesToWrite - 1
    ensures |Encode(str)| <= maxBytesToWrite - 1 ==> k == |str|
  {
    hide *;
    k := TruncatesAtBoundary(str, maxBytesToWrite - 1);
    BoundaryInside(str, k);
    PrefixHasNo(str, k);
    SplicedHolds(was, now, start, Encode(str[..k]));
    EncodedReadsBack(str[..k], now, start, limited, maxBytesToRead, end);
  }
}
