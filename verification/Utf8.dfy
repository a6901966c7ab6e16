// The meaning of the UTF-8 encoder and decoder of the database worker
// (mobile/web/drift_worker.dart.js), for strings of 16-bit code units and bytes as in section 3 of
// RFC 3629, and that the one inverts the other.
module Utf8 {
  type Unit = bv16
  type Octet = bv8

  // ---------------------------------------------------------------------------------------------
  // Encoding

  predicate IsHigh(u: Unit) {
    u & 64512 == 55296
  }

  predicate IsLow(u: Unit) {
    u & 64512 == 56320
  }

  const ReplacementUnit: Unit := 0xFFFD
  const Replacement: seq<Octet> := [239, 191, 189]
  const ByteOrderMark: Unit := 0xFEFF

  predicate IsPair(units: seq<Unit>) {
    |units| >= 2 && IsHigh(units[0]) && IsLow(units[1])
  }

  function PairCode(high: Unit, low: Unit): bv32 {
    JoinTens(TenBits(high), TenBits(low))
  }

  function TenBits(u: Unit): bv32 {
    (u & 1023) as bv32
  }

  function JoinTens(upper: bv32, lower: bv32): bv32 {
    (65536 + (upper << 10)) | lower
  }

  function Tail(s: bv32, shift: nat): Octet
    requires shift <= 12
  {
    (((s >> shift) & 63) | 128) as Octet
  }

  function PairOctets(s: bv32): seq<Octet>
    requires s < 0x110000
  {
    [FourHead(s), Tail(s, 12), Tail(s, 6), Tail(s, 0)]
  }

  // The first byte of a longer character.
  function TwoHead(o: Unit): Octet
    requires o <= 2047
  {
    ((o >> 6) | 192) as Octet
  }

  function ThreeHead(o: Unit): Octet {
    ((o >> 12) | 224) as Octet
  }

  function FourHead(s: bv32): Octet
    requires s < 0x110000
  {
    ((s >> 18) | 240) as Octet
  }

  function UnitOctets(o: Unit): seq<Octet> {
    if o <= 127 then [o as Octet]
    else if IsHigh(o) || IsLow(o) then Replacement
    else if o <= 2047 then [TwoHead(o), Tail(o as bv32, 0)]
    else [ThreeHead(o), Tail(o as bv32, 6), Tail(o as bv32, 0)]
  }

  lemma PairCodeRange(high: Unit, low: Unit)
    ensures 0x10000 <= PairCode(high, low) < 0x110000
  {
  }

  function Encode(units: seq<Unit>): seq<Octet> {
    if units == [] then []
    else if IsPair(units) then
      PairCodeRange(units[0], units[1]);
      PairOctets(PairCode(units[0], units[1])) + Encode(units[2..])
    else UnitOctets(units[0]) + Encode(units[1..])
  }

  // ---------------------------------------------------------------------------------------------
  // Decoding, one byte at a time

  // The class of a byte: the low five bits of its entry in the class table.
  function Class(f: Octet): nat {
    if f < 0x80 then 1
    else if f < 0x90 then 6
    else if f < 0xA0 then 7
    else if f == 0xBB then 9
    else if f == 0xBF then 10
    else if f < 0xC0 then 8
    else if f < 0xC2 then 5
    else if f < 0xE0 then 2
    else if f == 0xE0 then 11
    else if f == 0xED then 4
    else if f < 0xEF then 3
    else if f == 0xEF then 12
    else if f == 0xF0 then 15
    else if f < 0xF4 then 14
    else if f == 0xF4 then 13
    else 5
  }

  // The states: done with a character (0), before the first (16), behind a byte order mark (32);
  // one, two or three tail bytes to come (48, 58, 68); and one state for each first byte that
  // restricts the second.  An odd state is an error.
  const Start := 16
  const MissingExtension := 65
  const UnexpectedExtension := 67
  const InvalidByte := 69
  const Overlong := 71
  const OutOfRange := 73
  const EncodedSurrogate := 75
  const Unfinished := 77

  // The entry of the transition table.
  function Next(state: nat, cls: nat): nat {
    if state <= 32 then
      match cls
      case 1 => 0
      case 2 => 48
      case 3 => 58
      case 4 => 88
      case 11 => 78
      case 12 => if state == Start then 118 else 58
      case 13 => 108
      case 14 => 68
      case 15 => 98
      case 5 => InvalidByte
      case _ => UnexpectedExtension
    else if cls < 6 || cls > 10 then MissingExtension
    else
      match state
      case 48 => 0
      case 58 => 48
      case 68 => 58
      case 78 => if cls <= 7 then Overlong else 48
      case 88 => if cls <= 7 then 48 else EncodedSurrogate
      case 98 => if cls == 6 then Overlong else 58
      case 108 => if cls == 6 then 58 else OutOfRange
      case 118 => if cls == 9 then 128 else 48
      case 128 => if cls == 10 then 32 else 0
      case _ => MissingExtension
  }

  // A state and the bits gathered so far, which mean nothing between characters.
  datatype Machine = Machine(state: nat, bits: bv32)

  function Gather(m: Machine, f: Octet): bv32 {
    if m.state <= 32 then (f as bv32) & ((61694 as bv32) >> Class(f)) else ((f as bv32) & 63) | (m.bits << 6)
  }

  function Move(m: Machine, f: Octet): Machine {
    var state := Next(m.state, Class(f));
    Machine(state, if state <= 32 then 0 else Gather(m, f))
  }

  // The two halves of a code point above FFFF, less 10000.
  function HighOf(t: bv32): Unit
    requires t < 0x100000
  {
    ((t >> 10) | 55296) as Unit
  }

  function LowOf(t: bv32): Unit
    requires t < 0x100000
  {
    ((t & 1023) | 56320) as Unit
  }

  // A code point as code units.
  function Chars(code: bv32): seq<Unit> {
    if code <= 0xFFFF then [code as Unit]
    else if code < 0x110000 then [HighOf(code - 0x10000), LowOf(code - 0x10000)]
    else []
  }

  datatype Run = Decoded(units: seq<Unit>, machine: Machine) | Malformed(error: nat, offset: nat)

  function Prepend(units: seq<Unit>, run: Run): Run {
    if run.Decoded? then run.(units := units + run.units) else run
  }

  function Decode(m: Machine, octets: seq<Octet>, offset: nat): Run
    decreases |octets|
  {
    if octets == [] then Decoded([], m)
    else
      var next := Move(m, octets[0]);
      if next.state == 0 then Prepend(Chars(Gather(m, octets[0])), Decode(next, octets[1..], offset + 1))
      else if next.state % 2 == 1 then Malformed(next.state, offset)
      else Decode(next, octets[1..], offset + 1)
  }

  datatype Text = Text(units: seq<Unit>) | FormatError(error: nat, offset: nat)

  // A whole string: it must not end inside a character.
  function DecodeAll(octets: seq<Octet>): Text {
    match Decode(Machine(Start, 0), octets, 0)
    case Malformed(error, offset) => FormatError(error, offset)
    case Decoded(units, m) => if m.state > 32 then FormatError(Unfinished, |octets|) else Text(units)
  }

  // Decoding in two parts with the state carried over is decoding at once.
  lemma {:induction false} DecodeSplit(m: Machine, first: seq<Octet>, second: seq<Octet>, offset: nat)
    ensures Decode(m, first + second, offset) ==
      match Decode(m, first, offset)
      case Malformed(error, at) => Malformed(error, at)
      case Decoded(units, m') => Prepend(units, Decode(m', second, offset + |first|))
    decreases |first|
  {
    hide Move, Gather, Chars;
    if first == [] {
      assert first + second == second;
    } else {
      assert (first + second)[1..] == first[1..] + second;
      DecodeSplit(Move(m, first[0]), first[1..], second, offset + 1);
    }
  }

  // ---------------------------------------------------------------------------------------------
  // Which byte strings are UTF-8: the syntax of section 4 of RFC 3629

  predicate IsTail(f: Octet) {
    0x80 <= f <= 0xBF
  }

  // The length of the character that starts a byte string; 0 if none does.
  function Lead(octets: seq<Octet>): (n: nat)
    ensures n <= |octets| && n <= 4
  {
    if octets == [] then 0
    else
      var a := octets[0];
      if a <= 0x7F then 1
      else if 0xC2 <= a <= 0xDF then (if |octets| >= 2 && IsTail(octets[1]) then 2 else 0)
      else if 0xE0 <= a <= 0xEF then
        (if |octets| >= 3 && Second(a, octets[1]) && IsTail(octets[2]) then 3 else 0)
      else if 0xF0 <= a <= 0xF4 then
        (if |octets| >= 4 && Second(a, octets[1]) && IsTail(octets[2]) && IsTail(octets[3]) then 4 else 0)
      else 0
  }

  // Some first bytes restrict the second: no overlong form, no surrogate, nothing above 10FFFF.
  predicate Second(a: Octet, b: Octet) {
    IsTail(b)
    && (a == 0xE0 ==> b >= 0xA0) && (a == 0xED ==> b <= 0x9F)
    && (a == 0xF0 ==> b >= 0x90) && (a == 0xF4 ==> b <= 0x8F)
  }

  predicate WellFormed(octets: seq<Octet>) {
    octets == [] || (Lead(octets) > 0 && WellFormed(octets[Lead(octets)..]))
  }

  function Bits(f: Octet): bv32 {
    (f as bv32) & 63
  }

  // The code point of the first character.
  function Code(octets: seq<Octet>): bv32
    requires Lead(octets) > 0
  {
    match Lead(octets)
    case 1 => octets[0] as bv32
    case 2 => Code2(octets[0], octets[1])
    case 3 => Code3(octets[0], octets[1], octets[2])
    case _ => Code4(octets[0], octets[1], octets[2], octets[3])
  }

  function Code2(a: Octet, b: Octet): bv32 {
    (((a as bv32) & 31) << 6) | Bits(b)
  }

  function Code3(a: Octet, b: Octet, c: Octet): bv32 {
    (((a as bv32) & 15) << 12) | (Bits(b) << 6) | Bits(c)
  }

  function Code4(a: Octet, b: Octet, c: Octet, d: Octet): bv32 {
    (((a as bv32) & 7) << 18) | (Bits(b) << 12) | (Bits(c) << 6) | Bits(d)
  }

  predicate IsMark(octets: seq<Octet>) {
    |octets| >= 3 && octets[0] == 0xEF && octets[1] == 0xBB && octets[2] == 0xBF
  }

  // ---------------------------------------------------------------------------------------------
  // The machine reads whole characters

  lemma Unroll(m: Machine, octets: seq<Octet>, offset: nat)
    requires octets != []
    ensures var next := Move(m, octets[0]);
            Decode(m, octets, offset) ==
              if next.state == 0 then Prepend(Chars(Gather(m, octets[0])), Decode(next, octets[1..], offset + 1))
              else if next.state % 2 == 1 then Malformed(next.state, offset)
              else Decode(next, octets[1..], offset + 1)
  {
  }

  predicate Between(m: Machine) {
    (m.state == 0 || m.state == 32 || m.state == Start) && m.bits == 0
  }

  // Add a tail byte to the bits gathered so far.
  function Join(bits: bv32, f: Octet): bv32 {
    (bits << 6) | Bits(f)
  }

  lemma GatherTail(state: nat, bits: bv32, f: Octet)
    requires state > 32
    ensures Gather(Machine(state, bits), f) == Join(bits, f)
  {
  }

  lemma MoveTail(state: nat, bits: bv32, f: Octet)
    requires state == 48 || state == 58 || state == 68
    ensures var next := Move(Machine(state, bits), f);
            if IsTail(f) then next == if state == 48 then Machine(0, 0) else Machine(state - 10 , Join(bits, f))
            else next == Machine(MissingExtension, Gather(Machine(state, bits), f))
  {
    hide Join, Gather;
    GatherTail(state, bits, f);
  }

  // The state and bits after the first byte of a longer character.
  function FirstState(m: Machine, a: Octet): nat {
    if a < 0xE0 then 48
    else if a == 0xE0 then 78
    else if a == 0xED then 88
    else if a == 0xEF && m.state == Start then 118
    else if a < 0xF0 then 58
    else if a == 0xF0 then 98
    else if a == 0xF4 then 108
    else 68
  }

  function FirstBits(a: Octet): bv32 {
    if a < 0xE0 then (a as bv32) & 31 else if a < 0xF0 then (a as bv32) & 15 else (a as bv32) & 7
  }

  lemma MoveFirst(m: Machine, a: Octet)
    requires Between(m) && 0xC2 <= a <= 0xF4
    ensures Move(m, a) == Machine(FirstState(m, a), FirstBits(a))
  {
    GatherFirst(m, a);
    hide Gather, FirstBits;
  }

  lemma GatherFirst(m: Machine, a: Octet)
    requires m.state <= 32 && 0xC2 <= a <= 0xF4
    ensures Gather(m, a) == FirstBits(a)
  {
    if a < 0xE0 { assert (61694 as bv32) >> 2 == 0x3C3F; }
    else if a == 0xE0 { assert (61694 as bv32) >> 11 == 0x1E; }
    else if a == 0xED { assert (61694 as bv32) >> 4 == 0xF0F; }
    else if a < 0xEF { assert (61694 as bv32) >> 3 == 0x1E1F; }
    else if a == 0xEF { assert (61694 as bv32) >> 12 == 0xF; }
    else if a == 0xF0 { assert (61694 as bv32) >> 15 == 1; }
    else if a < 0xF4 { assert (61694 as bv32) >> 14 == 3; }
    else { assert (61694 as bv32) >> 13 == 7; }
  }

  // The second byte of a character of three or four.
  lemma MoveSecond(m: Machine, a: Octet, bits: bv32, b: Octet)
    requires Between(m) && 0xE0 <= a <= 0xF4
    ensures var next := Move(Machine(FirstState(m, a), bits), b);
            if Second(a, b) then
              next == Machine(if a >= 0xF0 then 58 else if FirstState(m, a) == 118 && b == 0xBB then 128
                else 48, Join(bits, b))
            else next.state % 2 == 1
  {
    hide Join, Gather;
    GatherTail(FirstState(m, a), bits, b);
  }

  lemma MoveLast(state: nat, bits: bv32, f: Octet)
    requires IsTail(f) && (state == 48 || (state == 128 && f != 0xBF))
    ensures Move(Machine(state, bits), f) == Machine(0, 0)
  {
    hide Gather;
  }

  lemma OneTail(state: nat, bits: bv32, octets: seq<Octet>, offset: nat)
    requires octets != [] && IsTail(octets[0])
    requires state == 48 || (state == 128 && octets[0] != 0xBF)
    ensures Decode(Machine(state, bits), octets, offset)
         == Prepend(Chars(Join(bits, octets[0])), Decode(Machine(0, 0), octets[1..], offset + 1))
  {
    hide *;
    Unroll(Machine(state, bits), octets, offset);
    GatherTail(state, bits, octets[0]);
    MoveLast(state, bits, octets[0]);
  }

  lemma TwoTails(bits: bv32, octets: seq<Octet>, offset: nat)
    requires |octets| >= 2 && IsTail(octets[0]) && IsTail(octets[1])
    ensures Decode(Machine(58, bits), octets, offset)
         == Prepend(Chars(Join(Join(bits, octets[0]), octets[1])), Decode(Machine(0, 0), octets[2..], offset + 2))
  {
    hide Chars, Join, Gather, Move, Decode, IsTail;
    Unroll(Machine(58, bits), octets, offset);
    MoveTail(58, bits, octets[0]);
    OneTail(48, Join(bits, octets[0]), octets[1..], offset + 1);
    assert octets[1..][1..] == octets[2..];
  }

  lemma ReadOne(m: Machine, octets: seq<Octet>, offset: nat)
    requires Between(m) && octets != [] && octets[0] <= 0x7F
    ensures Decode(m, octets, offset)
      == Prepend(Chars(octets[0] as bv32), Decode(Machine(0, 0), octets[1..], offset + 1))
  {
    Unroll(m, octets, offset);
    assert Gather(m, octets[0]) == octets[0] as bv32 by { assert (61694 as bv32) >> 1 == 0x787F; }
    hide Decode, Chars, Gather;
  }

  lemma ReadTwo(m: Machine, octets: seq<Octet>, offset: nat)
    requires Between(m) && |octets| >= 2 && 0xC2 <= octets[0] <= 0xDF && IsTail(octets[1])
    ensures Decode(m, octets, offset)
         == Prepend(Chars(Join(FirstBits(octets[0]), octets[1])), Decode(Machine(0, 0), octets[2..], offset + 2))
  {
    hide Chars, Join, Gather, Move, Decode, IsTail, FirstBits;
    Unroll(m, octets, offset);
    MoveFirst(m, octets[0]);
    OneTail(48, FirstBits(octets[0]), octets[1..], offset + 1);
    assert octets[1..][1..] == octets[2..];
  }

  lemma ReadThree(m: Machine, octets: seq<Octet>, offset: nat)
    requires Between(m) && |octets| >= 3 && 0xE0 <= octets[0] <= 0xEF && Second(octets[0], octets[1])
      && IsTail(octets[2])
    requires !(m.state == Start && IsMark(octets))
    ensures Decode(m, octets, offset)
         == Prepend(Chars(Join(Join(FirstBits(octets[0]), octets[1]), octets[2])),
           Decode(Machine(0, 0), octets[3..], offset + 3))
  {
    hide Chars, Join, Gather, Move, Decode, IsTail, FirstBits, Second;
    var bits := FirstBits(octets[0]);
    var first := Machine(FirstState(m, octets[0]), bits);
    Unroll(m, octets, offset);
    MoveFirst(m, octets[0]);
    Unroll(first, octets[1..], offset + 1);
    MoveSecond(m, octets[0], bits, octets[1]);
    var state := Move(first, octets[1]).state;
    assert octets[1..][1..] == octets[2..];
    OneTail(state, Join(bits, octets[1]), octets[2..], offset + 2);
    assert octets[2..][1..] == octets[3..];
  }

  lemma ReadMark(octets: seq<Octet>, offset: nat)
    requires IsMark(octets)
    ensures Decode(Machine(Start, 0), octets, offset) == Decode(Machine(32, 0), octets[3..], offset + 3)
  {
    hide Chars, Join, Gather, Decode, FirstBits;
    var bits := FirstBits(0xEF);
    Unroll(Machine(Start, 0), octets, offset);
    MoveFirst(Machine(Start, 0), 0xEF);
    Unroll(Machine(118, bits), octets[1..], offset + 1);
    MoveSecond(Machine(Start, 0), 0xEF, bits, 0xBB);
    assert octets[1..][1..] == octets[2..];
    Unroll(Machine(128, Join(bits, 0xBB)), octets[2..], offset + 2);
    assert octets[2..][1..] == octets[3..];
  }

  lemma ReadFour(m: Machine, octets: seq<Octet>, offset: nat)
    requires Between(m) && |octets| >= 4 && 0xF0 <= octets[0] <= 0xF4
    requires Second(octets[0], octets[1]) && IsTail(octets[2]) && IsTail(octets[3])
    ensures Decode(m, octets, offset)
         == Prepend(Chars(Join(Join(Join(FirstBits(octets[0]), octets[1]), octets[2]), octets[3])),
                    Decode(Machine(0, 0), octets[4..], offset + 4))
  {
    hide Chars, Join, Gather, Move, Decode, IsTail, FirstBits, Second;
    var bits := FirstBits(octets[0]);
    var first := Machine(FirstState(m, octets[0]), bits);
    Unroll(m, octets, offset);
    MoveFirst(m, octets[0]);
    Unroll(first, octets[1..], offset + 1);
    MoveSecond(m, octets[0], bits, octets[1]);
    assert octets[1..][1..] == octets[2..];
    TwoTails(Join(bits, octets[1]), octets[2..], offset + 2);
    assert octets[2..][2..] == octets[4..];
  }

  // The code point gathered is the one the bytes stand for.
  lemma CodeGathered(octets: seq<Octet>)
    requires Lead(octets) > 0
    ensures Lead(octets) == 1 ==> Code(octets) == octets[0] as bv32
    ensures Lead(octets) == 2 ==> Code(octets) == Join(FirstBits(octets[0]), octets[1])
    ensures Lead(octets) == 3 ==> Code(octets) == Join(Join(FirstBits(octets[0]), octets[1]), octets[2])
    ensures Lead(octets) == 4 ==>
      Code(octets) == Join(Join(Join(FirstBits(octets[0]), octets[1]), octets[2]), octets[3])
  {
    if Lead(octets) == 3 {
      ShiftTwice(FirstBits(octets[0]), Bits(octets[1]), Bits(octets[2]));
    } else if Lead(octets) == 4 {
      ShiftThrice(FirstBits(octets[0]), Bits(octets[1]), Bits(octets[2]), Bits(octets[3]));
    }
  }

  lemma ShiftTwice(a: bv32, b: bv32, c: bv32)
    ensures (((a << 6) | b) << 6) | c == (a << 12) | (b << 6) | c
  {
  }

  lemma ShiftThrice(a: bv32, b: bv32, c: bv32, d: bv32)
    ensures (((((a << 6) | b) << 6) | c) << 6) | d == (a << 18) | (b << 12) | (c << 6) | d
  {
  }

  // From a state between characters the machine reads one whole character, and no other.
  lemma ReadCharacter(m: Machine, octets: seq<Octet>, offset: nat)
    requires Between(m) && Lead(octets) > 0 && !(m.state == Start && IsMark(octets))
    ensures Decode(m, octets, offset)
         == Prepend(Chars(Code(octets)), Decode(Machine(0, 0), octets[Lead(octets)..], offset + Lead(octets)))
  {
    CodeGathered(octets);
    hide Chars, Join, Gather, Move, Decode, FirstBits, Second, Code, IsTail;
    match Lead(octets)
    case 1 => ReadOne(m, octets, offset);
    case 2 => ReadTwo(m, octets, offset);
    case 3 => ReadThree(m, octets, offset);
    case _ => ReadFour(m, octets, offset);
  }

  // Where no whole character starts, the machine reports an error or stops inside a character.
  ghost predicate Fails(run: Run) {
    run.Malformed? || run.machine.state > 32
  }

  lemma BadTail(state: nat, bits: bv32, octets: seq<Octet>, offset: nat)
    requires state == 48 || state == 58 || state == 68
    requires octets != [] ==> !IsTail(octets[0])
    ensures Fails(Decode(Machine(state, bits), octets, offset))
  {
    if octets != [] {
      Unroll(Machine(state, bits), octets, offset);
      MoveTail(state, bits, octets[0]);
    }
  }

  lemma BadTwoTails(bits: bv32, octets: seq<Octet>, offset: nat)
    requires !(|octets| >= 2 && IsTail(octets[0]) && IsTail(octets[1]))
    ensures Fails(Decode(Machine(58, bits), octets, offset))
  {
    hide Fails, Chars, Join, Gather, Move, Decode, IsTail;
    if octets == [] || !IsTail(octets[0]) {
      BadTail(58, bits, octets, offset);
    } else {
      Unroll(Machine(58, bits), octets, offset);
      MoveTail(58, bits, octets[0]);
      BadTail(48, Join(bits, octets[0]), octets[1..], offset + 1);
    }
  }

  lemma BadFirst(m: Machine, octets: seq<Octet>, offset: nat)
    requires Between(m) && octets != [] && octets[0] > 0x7F && !(0xC2 <= octets[0] <= 0xF4)
    ensures Fails(Decode(m, octets, offset))
  {
    hide Decode, Gather, Chars, IsTail;
    Unroll(m, octets, offset);
    MoveBad(m, octets[0]);
  }

  lemma MoveBad(m: Machine, a: Octet)
    requires Between(m) && a > 0x7F && !(0xC2 <= a <= 0xF4)
    ensures Move(m, a).state % 2 == 1
  {
    hide Gather;
  }

  lemma BadThird(m: Machine, octets: seq<Octet>, offset: nat)
    requires Between(m) && octets != [] && 0xE0 <= octets[0] <= 0xEF
    requires !(|octets| >= 3 && Second(octets[0], octets[1]) && IsTail(octets[2]))
    ensures Fails(Decode(m, octets, offset))
  {
    hide Chars, Join, Gather, Move, Decode, FirstBits, Second;
    var bits := FirstBits(octets[0]);
    var first := Machine(FirstState(m, octets[0]), bits);
    Unroll(m, octets, offset);
    MoveFirst(m, octets[0]);
    if |octets| == 1 {
      Nothing(first, octets[1..], offset + 1);
    } else {
      Unroll(first, octets[1..], offset + 1);
      MoveSecond(m, octets[0], bits, octets[1]);
      assert octets[1..][1..] == octets[2..];
      if Second(octets[0], octets[1]) {
        var state := Move(first, octets[1]).state;
        if state == 48 {
          BadTail(48, Join(bits, octets[1]), octets[2..], offset + 2);
        } else {
          BadMark(Join(bits, octets[1]), octets[2..], offset + 2);
        }
      }
    }
  }

  lemma Nothing(m: Machine, octets: seq<Octet>, offset: nat)
    requires octets == []
    ensures Decode(m, octets, offset) == Decoded([], m)
  {
  }

  lemma BadMark(bits: bv32, octets: seq<Octet>, offset: nat)
    requires octets != [] ==> !IsTail(octets[0])
    ensures Fails(Decode(Machine(128, bits), octets, offset))
  {
    if octets != [] {
      Unroll(Machine(128, bits), octets, offset);
      hide Decode, Gather;
    }
  }

  lemma BadFourth(m: Machine, octets: seq<Octet>, offset: nat)
    requires Between(m) && octets != [] && 0xF0 <= octets[0] <= 0xF4
    requires !(|octets| >= 4 && Second(octets[0], octets[1]) && IsTail(octets[2]) && IsTail(octets[3]))
    ensures Fails(Decode(m, octets, offset))
  {
    hide Chars, Join, Gather, Move, Decode, IsTail, FirstBits, Second;
    var bits := FirstBits(octets[0]);
    var first := Machine(FirstState(m, octets[0]), bits);
    Unroll(m, octets, offset);
    MoveFirst(m, octets[0]);
    if |octets| == 1 {
      Nothing(first, octets[1..], offset + 1);
    } else {
      Unroll(first, octets[1..], offset + 1);
      MoveSecond(m, octets[0], bits, octets[1]);
      assert octets[1..][1..] == octets[2..];
      if Second(octets[0], octets[1]) {
        BadTwoTails(Join(bits, octets[1]), octets[2..], offset + 2);
      }
    }
  }

  lemma BadSecond(m: Machine, octets: seq<Octet>, offset: nat)
    requires Between(m) && octets != [] && 0xC2 <= octets[0] <= 0xDF && !(|octets| >= 2 && IsTail(octets[1]))
    ensures Fails(Decode(m, octets, offset))
  {
    hide Chars, Join, Gather, Move, Decode, FirstBits;
    Unroll(m, octets, offset);
    MoveFirst(m, octets[0]);
    BadTail(48, FirstBits(octets[0]), octets[1..], offset + 1);
  }

  lemma BadCharacter(m: Machine, octets: seq<Octet>, offset: nat)
    requires Between(m) && octets != [] && Lead(octets) == 0
    ensures Fails(Decode(m, octets, offset))
  {
    hide Decode, Fails;
    var a := octets[0];
    if 0xC2 <= a <= 0xDF { BadSecond(m, octets, offset); }
    else if 0xE0 <= a <= 0xEF { BadThird(m, octets, offset); }
    else if 0xF0 <= a <= 0xF4 { BadFourth(m, octets, offset); }
    else { BadFirst(m, octets, offset); }
  }

  // The machine accepts exactly the byte strings of RFC 3629.
  lemma {:induction false} DecodeAccepts(m: Machine, octets: seq<Octet>, offset: nat)
    requires Between(m)
    ensures Fails(Decode(m, octets, offset)) <==> !WellFormed(octets)
    decreases |octets|
  {
    hide Chars, Code, Second;
    if octets != [] {
      hide Decode, Lead;
      if Lead(octets) == 0 {
        BadCharacter(m, octets, offset);
      } else if m.state == Start && IsMark(octets) {
        ReadMark(octets, offset);
        DecodeAccepts(Machine(32, 0), octets[3..], offset + 3);
        MarkLead(octets);
      } else {
        ReadCharacter(m, octets, offset);
        DecodeAccepts(Machine(0, 0), octets[Lead(octets)..], offset + Lead(octets));
      }
    }
  }

  lemma MarkLead(octets: seq<Octet>)
    requires IsMark(octets)
    ensures Lead(octets) == 3 && Chars(Code(octets)) == [ByteOrderMark]
  {
  }

  lemma DecodeAllAccepts(octets: seq<Octet>)
    ensures DecodeAll(octets).Text? <==> WellFormed(octets)
  {
    hide Decode, WellFormed;
    DecodeAccepts(Machine(Start, 0), octets, 0);
  }

  // ---------------------------------------------------------------------------------------------
  // Round trips

  function ScrubUnit(u: Unit): Unit {
    if IsHigh(u) || IsLow(u) then ReplacementUnit else u
  }

  // What encoding preserves: every unit but lone surrogates, which become U+FFFD.
  function Scrub(units: seq<Unit>): seq<Unit> {
    if units == [] then []
    else if IsPair(units) then [units[0], units[1]] + Scrub(units[2..])
    else [ScrubUnit(units[0])] + Scrub(units[1..])
  }

  // Every surrogate is half of a pair.
  predicate WellFormedUnits(units: seq<Unit>) {
    if units == [] then true
    else if IsPair(units) then WellFormedUnits(units[2..])
    else !IsHigh(units[0]) && !IsLow(units[0]) && WellFormedUnits(units[1..])
  }

  lemma ScrubExactly(units: seq<Unit>)
    ensures Scrub(units) == units <==> WellFormedUnits(units)
    ensures |Scrub(units)| == |units|
  {
    if units != [] {
      if IsPair(units) {
        ScrubExactly(units[2..]);
        assert units == [units[0], units[1]] + units[2..];
        assert Scrub(units)[2..] == Scrub(units[2..]);
      } else {
        ScrubExactly(units[1..]);
        assert units == [units[0]] + units[1..];
        assert Scrub(units)[1..] == Scrub(units[1..]);
      }
    }
  }

  lemma PairRead(high: Unit, low: Unit, rest: seq<Octet>)
    requires IsHigh(high) && IsLow(low)
    ensures PairCode(high, low) < 0x110000
    ensures var octets := PairOctets(PairCode(high, low)) + rest;
            && Lead(octets) == 4 && octets[4..] == rest
            && Code(octets) == PairCode(high, low) && Chars(PairCode(high, low)) == [high, low]
  {
    PairCodeRange(high, low);
    var s := PairCode(high, low);
    var octets := PairOctets(s) + rest;
    assert octets[..4] == PairOctets(s) && octets[4..] == rest;
    PairLead(s);
    PairChars(high, low, s);
    hide PairCode, Code;
    FourCode(octets, s);
  }

  lemma PairLead(s: bv32)
    requires 0x10000 <= s < 0x110000
    ensures var a := PairOctets(s);
            |a| == 4 && 0xF0 <= a[0] <= 0xF4 && Second(a[0], a[1]) && IsTail(a[2]) && IsTail(a[3])
  {
  }

  lemma PairChars(high: Unit, low: Unit, s: bv32)
    requires IsHigh(high) && IsLow(low) && s == PairCode(high, low)
    ensures Chars(s) == [high, low]
  {
    hide *;
    HighBits(high, low, s);
    LowBits(high, low, s);
    HalvesAre(s, high, low);
  }

  lemma HalvesAre(s: bv32, high: Unit, low: Unit)
    requires 0x10000 <= s < 0x110000 && HighOf(s - 0x10000) == high && LowOf(s - 0x10000) == low
    ensures Chars(s) == [high, low]
  {
    hide HighOf, LowOf;
  }

  lemma HighBits(high: Unit, low: Unit, s: bv32)
    requires IsHigh(high) && s == PairCode(high, low)
    ensures 0x10000 <= s < 0x110000 && HighOf(s - 0x10000) == high
  {
  }

  lemma LowBits(high: Unit, low: Unit, s: bv32)
    requires IsLow(low) && s == PairCode(high, low)
    ensures 0x10000 <= s < 0x110000 && LowOf(s - 0x10000) == low
  {
  }

  lemma TailBits(s: bv32)
    ensures IsTail(Tail(s, 0)) && Bits(Tail(s, 0)) == s & 63
    ensures IsTail(Tail(s, 6)) && Bits(Tail(s, 6)) == (s >> 6) & 63
    ensures IsTail(Tail(s, 12)) && Bits(Tail(s, 12)) == (s >> 12) & 63
  {
  }

  lemma FourCode(octets: seq<Octet>, s: bv32)
    requires 0x10000 <= s < 0x110000 && |octets| >= 4 && octets[..4] == PairOctets(s)
    ensures Lead(octets) == 4 && Code(octets) == s
  {
    hide *;
    PairLead(s);
    FourOctets(octets, s);
    LeadOfFour(octets);
    CodeOfFour(octets);
    FourBits(s);
  }

  lemma FourOctets(octets: seq<Octet>, s: bv32)
    requires s < 0x110000 && |octets| >= 4 && octets[..4] == PairOctets(s)
    ensures var a := PairOctets(s);
            && |a| == 4 && octets[0] == a[0] && octets[1] == a[1] && octets[2] == a[2] && octets[3] == a[3]
            && a[0] == FourHead(s)
            && a[1] == Tail(s, 12) && a[2] == Tail(s, 6) && a[3] == Tail(s, 0)
  {
    hide Tail, FourHead;
    assert octets[0] == octets[..4][0] && octets[1] == octets[..4][1];
    assert octets[2] == octets[..4][2] && octets[3] == octets[..4][3];
  }

  lemma LeadOfFour(octets: seq<Octet>)
    requires |octets| >= 4 && 0xF0 <= octets[0] <= 0xF4 && Second(octets[0], octets[1])
    requires IsTail(octets[2]) && IsTail(octets[3])
    ensures Lead(octets) == 4
  {
    hide Second, IsTail;
  }

  lemma CodeOfFour(octets: seq<Octet>)
    requires Lead(octets) == 4
    ensures Code(octets) == Code4(octets[0], octets[1], octets[2], octets[3])
  {
    hide Lead, Code4;
  }

  lemma FourBits(s: bv32)
    requires s < 0x110000
    ensures Code4(FourHead(s), Tail(s, 12), Tail(s, 6), Tail(s, 0)) == s
  {
    hide Tail, Bits, FourHead;
    TailBits(s);
    FirstOfFour(s);
    FourParts(s);
  }

  lemma FirstOfFour(s: bv32)
    requires s < 0x110000
    ensures (FourHead(s) as bv32) & 7 == s >> 18
  {
  }

  lemma FourParts(s: bv32)
    requires s < 0x110000
    ensures ((s >> 18) << 18) | (((s >> 12) & 63) << 12) | (((s >> 6) & 63) << 6) | (s & 63) == s
  {
  }

  lemma ThreeParts(s: bv32)
    requires s < 0x10000
    ensures ((s >> 12) << 12) | (((s >> 6) & 63) << 6) | (s & 63) == s
  {
  }

  lemma FirstOfThree(o: Unit)
    ensures var a := ThreeHead(o); 0xE0 <= a <= 0xEF && (a as bv32) & 15 == (o as bv32) >> 12
  {
  }

  lemma UnitRead(o: Unit, rest: seq<Octet>)
    ensures var octets := UnitOctets(o) + rest;
            var n := |UnitOctets(o)|;
            && Lead(octets) == n > 0 && octets[n..] == rest
            && Chars(Code(octets)) == [ScrubUnit(o)]
  {
    var octets := UnitOctets(o) + rest;
    var n := |UnitOctets(o)|;
    UnitLength(o);
    assert octets[n..] == rest && octets[..n] == UnitOctets(o);
    UnitCodes(o, octets);
    CharsOfUnit(ScrubUnit(o));
    hide *;
  }

  lemma CharsOfUnit(u: Unit)
    ensures Chars(u as bv32) == [u]
  {
  }

  lemma UnitLength(o: Unit)
    ensures 1 <= |UnitOctets(o)| <= 3
  {
  }

  lemma UnitCodes(o: Unit, octets: seq<Octet>)
    requires |octets| >= |UnitOctets(o)| && octets[..|UnitOctets(o)|] == UnitOctets(o)
    ensures Lead(octets) == |UnitOctets(o)| > 0
    ensures Code(octets) == ScrubUnit(o) as bv32
  {
    hide *;
    if o <= 127 {
      OctetCode(o, octets);
    } else if IsHigh(o) || IsLow(o) {
      ReplacementCode(o, octets);
    } else if o <= 2047 {
      TwoOctetCode(o, octets);
    } else {
      ThreeOctetCode(o, octets);
    }
  }

  lemma FirstOctets(octets: seq<Octet>, a: seq<Octet>)
    requires 1 <= |a| <= 3 && |a| <= |octets| && octets[..|a|] == a
    ensures octets[0] == a[0] && (|a| >= 2 ==> octets[1] == a[1]) && (|a| >= 3 ==> octets[2] == a[2])
  {
    assert octets[0] == octets[..|a|][0];
    if |a| >= 2 { assert octets[1] == octets[..|a|][1]; }
    if |a| >= 3 { assert octets[2] == octets[..|a|][2]; }
  }

  lemma OctetCode(o: Unit, octets: seq<Octet>)
    requires o <= 127 && |octets| >= |UnitOctets(o)| && octets[..|UnitOctets(o)|] == UnitOctets(o)
    ensures Lead(octets) == |UnitOctets(o)| > 0 && Code(octets) == ScrubUnit(o) as bv32
  {
    FirstOctets(octets, [o as Octet]);
  }

  lemma ReplacementCode(o: Unit, octets: seq<Octet>)
    requires o > 127 && (IsHigh(o) || IsLow(o))
    requires |octets| >= |UnitOctets(o)| && octets[..|UnitOctets(o)|] == UnitOctets(o)
    ensures Lead(octets) == |UnitOctets(o)| > 0 && Code(octets) == ScrubUnit(o) as bv32
  {
    FirstOctets(octets, Replacement);
  }

  lemma TwoOctetCode(o: Unit, octets: seq<Octet>)
    requires 127 < o <= 2047 && !IsHigh(o) && !IsLow(o)
    requires |octets| >= |UnitOctets(o)| && octets[..|UnitOctets(o)|] == UnitOctets(o)
    ensures Lead(octets) == |UnitOctets(o)| > 0 && Code(octets) == ScrubUnit(o) as bv32
  {
    UnitCodeTwo(o);
    FirstOctets(octets, UnitOctets(o));
    assert ScrubUnit(o) == o;
    hide UnitOctets, IsTail, Second, Code2, Code3, Code4, IsHigh, IsLow, ScrubUnit;
  }

  lemma ThreeOctetCode(o: Unit, octets: seq<Octet>)
    requires o > 2047 && !IsHigh(o) && !IsLow(o)
    requires |octets| >= |UnitOctets(o)| && octets[..|UnitOctets(o)|] == UnitOctets(o)
    ensures Lead(octets) == |UnitOctets(o)| > 0 && Code(octets) == ScrubUnit(o) as bv32
  {
    UnitCodeThree(o);
    FirstOctets(octets, UnitOctets(o));
    assert ScrubUnit(o) == o;
    hide UnitOctets, IsTail, Second, Code2, Code3, Code4, IsHigh, IsLow, ScrubUnit;
  }

  lemma UnitCodeTwo(o: Unit)
    requires 127 < o <= 2047
    ensures var a := UnitOctets(o);
            |a| == 2 && 0xC2 <= a[0] <= 0xDF && IsTail(a[1]) && Code2(a[0], a[1]) == o as bv32
  {
  }

  lemma UnitCodeThree(o: Unit)
    requires 2047 < o && !IsHigh(o) && !IsLow(o)
    ensures var a := UnitOctets(o);
            && |a| == 3 && 0xE0 <= a[0] <= 0xEF && Second(a[0], a[1]) && IsTail(a[2])
            && Code3(a[0], a[1], a[2]) == o as bv32
  {
    FirstOfThree(o);
    TailBits(o as bv32);
    ThreeParts(o as bv32);
    ThreeSecond(o);
    hide Bits, Tail, Second, IsTail, ThreeHead;
  }

  lemma ThreeSecond(o: Unit)
    requires 2047 < o && !IsHigh(o) && !IsLow(o)
    ensures Second(ThreeHead(o), Tail(o as bv32, 6))
  {
  }

  lemma {:induction false} RoundTripFrom(m: Machine, units: seq<Unit>, offset: nat)
    requires m == Machine(0, 0) || m == Machine(32, 0)
    ensures Decode(m, Encode(units), offset).Decoded?
    ensures Decode(m, Encode(units), offset).units == Scrub(units)
    ensures Decode(m, Encode(units), offset).machine.state <= 32
    decreases |units|
  {
    hide Chars, Code, Lead, UnitOctets, PairOctets, PairCode, Decode;
    if units == [] {
      Nothing(m, Encode(units), offset);
    } else if IsPair(units) {
      PairRead(units[0], units[1], Encode(units[2..]));
      ReadCharacter(m, Encode(units), offset);
      RoundTripFrom(Machine(0, 0), units[2..], offset + 4);
    } else {
      UnitRead(units[0], Encode(units[1..]));
      ReadCharacter(m, Encode(units), offset);
      RoundTripFrom(Machine(0, 0), units[1..], offset + |UnitOctets(units[0])|);
    }
  }

  // Decoding what was encoded gives back the string with lone surrogates replaced and a leading
  // byte order mark dropped.
  lemma RoundTrip(units: seq<Unit>)
    ensures DecodeAll(Encode(units))
      == Text(if units != [] && units[0] == ByteOrderMark then Scrub(units)[1..] else Scrub(units))
  {
    hide *;
    if units == [] {
      EmptyText();
    } else if units[0] == ByteOrderMark {
      MarkEncoded(units);
      ReadMark(Encode(units), 0);
      RoundTripFrom(Machine(32, 0), units[1..], 3);
      AllDecoded(Encode(units));
    } else {
      RoundTripFrom(Machine(0, 0), units, 0);
      NoMark(units);
      SameFromStart(units);
      AllDecoded(Encode(units));
    }
  }

  lemma EmptyText()
    ensures DecodeAll(Encode([])) == Text(Scrub([]))
  {
  }

  lemma AllDecoded(octets: seq<Octet>)
    ensures var run := Decode(Machine(Start, 0), octets, 0);
            run.Decoded? && run.machine.state <= 32 ==> DecodeAll(octets) == Text(run.units)
  {
    hide Decode;
  }

  lemma MarkEncoded(units: seq<Unit>)
    requires units != [] && units[0] == ByteOrderMark
    ensures IsMark(Encode(units)) && Encode(units)[3..] == Encode(units[1..]) && Scrub(units)[1..] == Scrub(units[1..])
  {
    assert !IsPair(units);
    assert UnitOctets(ByteOrderMark) == [0xEF, 0xBB, 0xBF];
  }

  lemma NoMark(units: seq<Unit>)
    requires units != [] && units[0] != ByteOrderMark
    ensures !IsMark(Encode(units))
  {
    if IsPair(units) {
      PairLead(PairCode(units[0], units[1]));
      PairCodeRange(units[0], units[1]);
      assert Encode(units)[0] == PairOctets(PairCode(units[0], units[1]))[0];
    } else {
      UnitRead(units[0], Encode(units[1..]));
      if IsMark(Encode(units)) { MarkLead(Encode(units)); }
    }
  }

  lemma SameFromStart(units: seq<Unit>)
    requires units != [] && !IsMark(Encode(units))
    ensures Decode(Machine(Start, 0), Encode(units), 0) == Decode(Machine(0, 0), Encode(units), 0)
  {
    hide Chars, Code, Lead, UnitOctets, PairOctets, PairCode, Decode;
    if IsPair(units) {
      PairRead(units[0], units[1], Encode(units[2..]));
    } else {
      UnitRead(units[0], Encode(units[1..]));
    }
    ReadCharacter(Machine(Start, 0), Encode(units), 0);
    ReadCharacter(Machine(0, 0), Encode(units), 0);
  }

  // A string survives exactly when every surrogate is paired and it does not start with a byte
  // order mark.
  lemma RoundTripExactly(units: seq<Unit>)
    ensures DecodeAll(Encode(units)) == Text(units)
      <==> WellFormedUnits(units) && (units != [] ==> units[0] != ByteOrderMark)
  {
    hide DecodeAll, Encode, Scrub, WellFormedUnits;
    RoundTrip(units);
    ScrubExactly(units);
  }

  // ---------------------------------------------------------------------------------------------
  // Encoding what was decoded

  lemma TwoBack(a: Octet, b: Octet, s: bv32)
    requires 0xC2 <= a <= 0xDF && IsTail(b) && s == Code2(a, b)
    ensures s <= 0x7FF && UnitOctets(s as Unit) == [a, b]
  {
    hide *;
    TwoRange(a, b, s);
    TwoBackTails(a, b, s);
    TwoWritten(s as Unit, s);
  }

  lemma TwoRange(a: Octet, b: Octet, s: bv32)
    requires 0xC2 <= a <= 0xDF && IsTail(b) && s == Code2(a, b)
    ensures s <= 0x7FF && 0x80 <= s as Unit <= 0x7FF && (s as Unit) as bv32 == s
    ensures !IsHigh(s as Unit) && !IsLow(s as Unit)
  {
  }

  lemma TwoBackTails(a: Octet, b: Octet, s: bv32)
    requires 0xC2 <= a <= 0xDF && IsTail(b) && s == Code2(a, b)
    ensures s <= 0x7FF && s as Unit <= 0x7FF && TwoHead(s as Unit) == a && Tail(s, 0) == b
  {
  }

  lemma TwoWritten(o: Unit, s: bv32)
    requires 127 < o <= 2047 && !IsHigh(o) && !IsLow(o) && s == o as bv32
    ensures UnitOctets(o) == [TwoHead(o), Tail(s, 0)]
  {
    hide IsHigh, IsLow, Tail, TwoHead;
  }

  lemma ThreeBack(a: Octet, b: Octet, c: Octet, s: bv32)
    requires 0xE0 <= a <= 0xEF && Second(a, b) && IsTail(c) && s == Code3(a, b, c)
    ensures s <= 0xFFFF && UnitOctets(s as Unit) == [a, b, c]
  {
    hide *;
    SecondIsTail(a, b);
    ThreeRange(a, b, c, s);
    ThreeTails(a, b, c, s);
    ThreeHeadBack(a, b, c, s);
    ThreeWritten(s as Unit, s);
  }

  lemma SecondIsTail(a: Octet, b: Octet)
    requires Second(a, b)
    ensures IsTail(b)
  {
  }

  lemma ThreeRange(a: Octet, b: Octet, c: Octet, s: bv32)
    requires 0xE0 <= a <= 0xEF && Second(a, b) && IsTail(c) && s == Code3(a, b, c)
    ensures s <= 0xFFFF && 0x800 <= s as Unit && (s as Unit) as bv32 == s
    ensures !IsHigh(s as Unit) && !IsLow(s as Unit)
  {
  }

  lemma ThreeTails(a: Octet, b: Octet, c: Octet, s: bv32)
    requires 0xE0 <= a <= 0xEF && IsTail(b) && IsTail(c) && s == Code3(a, b, c)
    ensures Tail(s, 6) == b && Tail(s, 0) == c
  {
  }

  lemma ThreeHeadBack(a: Octet, b: Octet, c: Octet, s: bv32)
    requires 0xE0 <= a <= 0xEF && IsTail(b) && IsTail(c) && s == Code3(a, b, c)
    ensures s <= 0xFFFF && ThreeHead(s as Unit) == a
  {
  }

  lemma ThreeWritten(o: Unit, s: bv32)
    requires o > 2047 && !IsHigh(o) && !IsLow(o) && s == o as bv32
    ensures UnitOctets(o) == [ThreeHead(o), Tail(s, 6), Tail(s, 0)]
  {
    hide IsHigh, IsLow, Tail, ThreeHead;
  }

  lemma FourBack(a: Octet, b: Octet, c: Octet, d: Octet)
    requires 0xF0 <= a <= 0xF4 && Second(a, b) && IsTail(c) && IsTail(d)
    ensures 0x10000 <= Code4(a, b, c, d) < 0x110000
    ensures PairOctets(Code4(a, b, c, d)) == [a, b, c, d]
  {
    FourRange(a, b, c, d);
    FourTails(a, b, c, d);
    hide Code4, Tail, FourHead;
  }

  lemma FourRange(a: Octet, b: Octet, c: Octet, d: Octet)
    requires 0xF0 <= a <= 0xF4 && Second(a, b) && IsTail(c) && IsTail(d)
    ensures 0x10000 <= Code4(a, b, c, d) < 0x110000
  {
  }

  lemma FourTails(a: Octet, b: Octet, c: Octet, d: Octet)
    requires 0xF0 <= a <= 0xF4 && IsTail(b) && IsTail(c) && IsTail(d)
    ensures Code4(a, b, c, d) < 0x110000 ==> FourHead(Code4(a, b, c, d)) == a
    ensures Tail(Code4(a, b, c, d), 12) == b && Tail(Code4(a, b, c, d), 6) == c && Tail(Code4(a, b, c, d), 0) == d
  {
  }

  lemma PairBack(s: bv32)
    requires 0x10000 <= s < 0x110000
    ensures var high, low := HighOf(s - 0x10000), LowOf(s - 0x10000);
            Chars(s) == [high, low] && IsHigh(high) && IsLow(low) && PairCode(high, low) == s
  {
    hide *;
    HalvesChars(s);
    HalvesCode(s);
  }

  lemma HalvesChars(s: bv32)
    requires 0x10000 <= s < 0x110000
    ensures var high, low := HighOf(s - 0x10000), LowOf(s - 0x10000);
            Chars(s) == [high, low] && IsHigh(high) && IsLow(low)
  {
    hide IsHigh, IsLow, HighOf, LowOf;
    HighHalf(s - 0x10000);
    LowHalf(s - 0x10000);
  }

  lemma HalvesCode(s: bv32)
    requires 0x10000 <= s < 0x110000
    ensures PairCode(HighOf(s - 0x10000), LowOf(s - 0x10000)) == s
  {
    hide HighOf, LowOf, TenBits, JoinTens;
    HighHalf(s - 0x10000);
    LowHalf(s - 0x10000);
    Recombine(s);
  }

  lemma HighHalf(t: bv32)
    requires t < 0x100000
    ensures IsHigh(HighOf(t)) && TenBits(HighOf(t)) == t >> 10
  {
  }

  lemma LowHalf(t: bv32)
    requires t < 0x100000
    ensures IsLow(LowOf(t)) && TenBits(LowOf(t)) == t & 1023
  {
  }

  lemma Recombine(s: bv32)
    requires 0x10000 <= s < 0x110000
    ensures JoinTens((s - 0x10000) >> 10, (s - 0x10000) & 1023) == s
  {
  }

  lemma EncodeUnit(u: Unit, rest: seq<Unit>)
    requires !IsHigh(u)
    ensures Encode([u] + rest) == UnitOctets(u) + Encode(rest)
  {
    hide UnitOctets, IsHigh, IsLow;
    assert ([u] + rest)[1..] == rest;
  }

  lemma EncodePair(s: bv32, rest: seq<Unit>)
    requires 0x10000 <= s < 0x110000
    ensures Encode(Chars(s) + rest) == PairOctets(s) + Encode(rest)
  {
    PairBack(s);
    hide Chars, PairOctets, PairCode, IsHigh, IsLow;
    var units := Chars(s) + rest;
    assert units[2..] == rest && units[0] == Chars(s)[0] && units[1] == Chars(s)[1];
  }

  lemma WriteCharacter(octets: seq<Octet>, rest: seq<Unit>)
    requires Lead(octets) > 0
    ensures Encode(Chars(Code(octets)) + rest) == octets[..Lead(octets)] + Encode(rest)
  {
    hide *;
    match Lead(octets)
    case 1 => WriteOne(octets, rest);
    case 2 => WriteTwo(octets, rest);
    case 3 => WriteThree(octets, rest);
    case _ => WriteFour(octets, rest);
  }

  lemma WriteOne(octets: seq<Octet>, rest: seq<Unit>)
    requires Lead(octets) == 1
    ensures Encode(Chars(Code(octets)) + rest) == octets[..1] + Encode(rest)
  {
    OneBack(octets[0]);
    hide UnitOctets, Encode, Chars, IsHigh;
    EncodeUnit(octets[0] as Unit, rest);
    assert octets[..1] == [octets[0]];
  }

  lemma WriteTwo(octets: seq<Octet>, rest: seq<Unit>)
    requires Lead(octets) == 2
    ensures Encode(Chars(Code(octets)) + rest) == octets[..2] + Encode(rest)
  {
    hide *;
    var s := Code(octets);
    CodeOfTwo(octets);
    TwoBack(octets[0], octets[1], s);
    TwoRange(octets[0], octets[1], s);
    BasicUnit(s, rest);
    assert octets[..2] == [octets[0], octets[1]];
  }

  lemma CodeOfTwo(octets: seq<Octet>)
    requires Lead(octets) == 2
    ensures 0xC2 <= octets[0] <= 0xDF && IsTail(octets[1])
    ensures Code(octets) == Code2(octets[0], octets[1])
  {
    hide IsTail, Second, Code2;
  }

  lemma WriteThree(octets: seq<Octet>, rest: seq<Unit>)
    requires Lead(octets) == 3
    ensures Encode(Chars(Code(octets)) + rest) == octets[..3] + Encode(rest)
  {
    hide *;
    var s := Code(octets);
    CodeOfThree(octets);
    ThreeBack(octets[0], octets[1], octets[2], s);
    ThreeRange(octets[0], octets[1], octets[2], s);
    BasicUnit(s, rest);
    assert octets[..3] == [octets[0], octets[1], octets[2]];
  }

  lemma CodeOfThree(octets: seq<Octet>)
    requires Lead(octets) == 3
    ensures 0xE0 <= octets[0] <= 0xEF && Second(octets[0], octets[1]) && IsTail(octets[2])
    ensures Code(octets) == Code3(octets[0], octets[1], octets[2])
  {
    hide Second, IsTail, Code3;
  }

  lemma WriteFour(octets: seq<Octet>, rest: seq<Unit>)
    requires Lead(octets) == 4
    ensures Encode(Chars(Code(octets)) + rest) == octets[..4] + Encode(rest)
  {
    FourBack(octets[0], octets[1], octets[2], octets[3]);
    hide Code4, PairOctets, Encode, Chars, IsTail, Second;
    EncodePair(Code4(octets[0], octets[1], octets[2], octets[3]), rest);
    assert octets[..4] == [octets[0], octets[1], octets[2], octets[3]];
  }

  lemma OneBack(a: Octet)
    requires a <= 0x7F
    ensures UnitOctets(a as Unit) == [a] && Chars(a as bv32) == [a as Unit] && !IsHigh(a as Unit)
  {
  }

  lemma BasicUnit(code: bv32, rest: seq<Unit>)
    requires code <= 0xFFFF && !IsHigh(code as Unit)
    ensures Encode(Chars(code) + rest) == UnitOctets(code as Unit) + Encode(rest)
  {
    EncodeUnit(code as Unit, rest);
  }

  lemma OneCharacter(m: Machine, octets: seq<Octet>, offset: nat)
    requires (m == Machine(0, 0) || m == Machine(32, 0)) && WellFormed(octets) && octets != []
    ensures Lead(octets) > 0 && WellFormed(octets[Lead(octets)..])
    ensures Decode(m, octets, offset)
         == Prepend(Chars(Code(octets)), Decode(Machine(0, 0), octets[Lead(octets)..], offset + Lead(octets)))
  {
    ReadCharacter(m, octets, offset);
    hide Decode, Lead, Chars, Code;
  }

  lemma CharacterEncodes(m: Machine, octets: seq<Octet>, offset: nat)
    requires Lead(octets) > 0
    requires var n := Lead(octets);
             var rest := Decode(Machine(0, 0), octets[n..], offset + n);
             rest.Decoded? && Encode(rest.units) == octets[n..]
               && Decode(m, octets, offset) == Prepend(Chars(Code(octets)), rest)
    ensures Decode(m, octets, offset).Decoded? && Encode(Decode(m, octets, offset).units) == octets
  {
    hide Decode, Encode, Lead, Chars, Code;
    var n := Lead(octets);
    WriteCharacter(octets, Decode(Machine(0, 0), octets[n..], offset + n).units);
    assert octets == octets[..n] + octets[n..];
  }

  lemma NothingEncodes(m: Machine, octets: seq<Octet>, offset: nat)
    requires octets == []
    ensures Decode(m, octets, offset).Decoded? && Encode(Decode(m, octets, offset).units) == octets
  {
    Nothing(m, octets, offset);
  }

  // Encoding what was decoded gives back the bytes, so no two byte strings decode alike.
  lemma {:induction false} DecodedEncodes(m: Machine, octets: seq<Octet>, offset: nat)
    requires (m == Machine(0, 0) || m == Machine(32, 0)) && WellFormed(octets)
    ensures Decode(m, octets, offset).Decoded? && Encode(Decode(m, octets, offset).units) == octets
    decreases |octets|
  {
    hide *;
    if octets == [] {
      NothingEncodes(m, octets, offset);
    } else {
      OneCharacter(m, octets, offset);
      DecodedEncodes(Machine(0, 0), octets[Lead(octets)..], offset + Lead(octets));
      CharacterEncodes(m, octets, offset);
    }
  }

  // A whole decoded string encodes to its bytes, without the byte order mark if they had one.
  lemma DecodeAllEncodes(octets: seq<Octet>)
    requires WellFormed(octets)
    ensures DecodeAll(octets).Text? && Encode(DecodeAll(octets).units) == if IsMark(octets) then octets[3..] else octets
  {
    DecodeAllAccepts(octets);
    hide Decode, Encode;
    if octets == [] {
      Nothing(Machine(Start, 0), octets, 0);
      Nothing(Machine(0, 0), octets, 0);
      DecodedEncodes(Machine(0, 0), octets, 0);
    } else if IsMark(octets) {
      ReadMark(octets, 0);
      MarkLead(octets);
      DecodedEncodes(Machine(32, 0), octets[3..], 3);
    } else {
      ReadCharacter(Machine(Start, 0), octets, 0);
      ReadCharacter(Machine(0, 0), octets, 0);
      DecodedEncodes(Machine(0, 0), octets, 0);
    }
  }
}
