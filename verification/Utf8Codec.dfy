// The UTF-8 encoder and decoder objects of the database worker (mobile/web/drift_worker.dart.js):
// an encoder filling a buffer of three bytes a unit, and a decoder carrying its state from chunk to
// chunk.
module Utf8Codec {
  import opened Utf8

  class Utf8Encoder {
    const buffer: array<Octet>
    var position: nat

    ghost predicate Valid()
      reads this
    {
      position <= buffer.Length
    }

    ghost function Written(): seq<Octet>
      reads this, buffer
      requires Valid()
    {
      buffer[..position]
    }

    constructor (units: nat)
      ensures Valid() && fresh(buffer) && buffer.Length == 3 * units && position == 0
    {
      buffer := new Octet[3 * units];
      position := 0;
    }

    method Put(f: Octet)
      requires Valid() && position < buffer.Length
      modifies this`position, buffer
      ensures Valid() && position == old(position) + 1 && Written() == old(Written()) + [f]
    {
      buffer[position] := f;
      position := position + 1;
    }

    method WriteReplacementCharacter()
      requires Valid() && position + 3 <= buffer.Length
      modifies this`position, buffer
      ensures Valid() && position == old(position) + 3 && Written() == old(Written()) + Replacement
    {
      Put(239);
      Put(191);
      Put(189);
    }

    // A high surrogate and the unit behind it: a pair takes four bytes, else the high surrogate is
    // replaced.
    method WriteSurrogate(high: Unit, next: Unit) returns (paired: bool)
      requires Valid() && position + 4 <= buffer.Length
      modifies this`position, buffer
      ensures Valid() && paired == IsLow(next) && position == old(position) + if paired then 4 else 3
      ensures paired ==>
        PairCode(high, next) < 0x110000 && Written() == old(Written()) + PairOctets(PairCode(high, next))
      ensures !paired ==> Written() == old(Written()) + Replacement
    {
      hide PairCode, Tail, FourHead;
      if IsLow(next) {
        PairCodeRange(high, next);
        var s := PairCode(high, next);
        Put(FourHead(s));
        Put(Tail(s, 12));
        Put(Tail(s, 6));
        Put(Tail(s, 0));
        return true;
      }
      WriteReplacementCharacter();
      return false;
    }

    // Encode the next character if the buffer has room for it.
    method EncodeCharacter(units: seq<Unit>, used: nat) returns (room: bool, next: nat)
      requires Valid() && used < |units| && position + 3 * (|units| - used) <= buffer.Length
      requires used == |units| - 1 ==> !IsHigh(units[used])
      modifies this`position, buffer
      ensures Valid() && room
      ensures used < next <= |units| && position <= old(position) + 3 * (next - used)
      ensures next == used + (if IsPair(units[used..]) then 2 else 1)
      ensures Written() + Encode(units[next..]) == old(Written()) + Encode(units[used..])
    {
      hide PairCode, IsHigh, IsLow, UnitOctets, PairOctets, Encode, TwoHead, ThreeHead, Tail;
      var o := units[used];
      ghost var before := Written();
      EncodeNext(units[used..]);
      assert units[used..][0] == o && units[used..][1..] == units[used + 1..];
      assert used + 2 <= |units| ==> units[used..][1] == units[used + 1] && units[used..][2..] == units[used + 2..];
      if o <= 127 {
        OneOctet(o);
        if position >= buffer.Length { return false, used; }
        Put(o as Octet);
        Regroup(before, UnitOctets(o), Encode(units[used + 1..]));
        return true, used + 1;
      } else if IsHigh(o) {
        LoneSurrogate(o);
        if position + 4 > buffer.Length { return false, used; }
        var paired := WriteSurrogate(o, units[used + 1]);
        next := if paired then used + 2 else used + 1;
        ghost var bytes := if paired then PairOctets(PairCode(o, units[used + 1])) else Replacement;
        Regroup(before, bytes, Encode(units[next..]));
        return true, next;
      } else if IsLow(o) {
        LoneSurrogate(o);
        if position + 3 > buffer.Length { return false, used; }
        WriteReplacementCharacter();
        Regroup(before, Replacement, Encode(units[used + 1..]));
        return true, used + 1;
      } else if o <= 2047 {
        ShortIsPlain(o);
        TwoWritten(o, o as bv32);
        if position + 1 >= buffer.Length { return false, used; }
        Put(TwoHead(o));
        Put(Tail(o as bv32, 0));
        assert Written() == before + UnitOctets(o);
        Regroup(before, UnitOctets(o), Encode(units[used + 1..]));
        return true, used + 1;
      } else {
        ThreeWritten(o, o as bv32);
        if position + 2 >= buffer.Length { return false, used; }
        Put(ThreeHead(o));
        Put(Tail(o as bv32, 6));
        Put(Tail(o as bv32, 0));
        assert Written() == before + UnitOctets(o);
        Regroup(before, UnitOctets(o), Encode(units[used + 1..]));
        return true, used + 1;
      }
    }

    // Encode units while there is room, holding back a high surrogate at the end; the result says
    // how many were used.  There is always room.
    method FillBuffer(units: seq<Unit>) returns (used: nat)
      requires Valid() && position == 0 && units != [] && buffer.Length == 3 * |units|
      modifies this`position, buffer
      ensures Valid() && used <= |units| && position <= 3 * used
      ensures used == |units| - (if IsHigh(units[|units| - 1]) then 1 else 0)
      ensures Written() + Encode(units[used..]) == Encode(units)
    {
      hide IsHigh, IsLow, Encode;
      var end := |units|;
      if IsHigh(units[end - 1]) { end := end - 1; }
      used := 0;
      assert units[0..] == units;
      while used < end
        invariant Valid() && used <= end && position <= 3 * used
        invariant Written() + Encode(units[used..]) == Encode(units)
      {
        if IsPair(units[used..]) { NotBoth(units[used + 1]); }
        var room, next := EncodeCharacter(units, used);
        if !room { break; }
        used := next;
      }
    }
  }

  lemma Regroup(first: seq<Octet>, second: seq<Octet>, third: seq<Octet>)
    ensures first + (second + third) == first + second + third
  {
  }

  lemma NotBoth(u: Unit)
    ensures !(IsHigh(u) && IsLow(u))
  {
  }

  lemma EncodeNext(units: seq<Unit>)
    requires units != []
    ensures |units| >= 2 && IsHigh(units[0]) && IsLow(units[1]) ==>
      PairCode(units[0], units[1]) < 0x110000
      && Encode(units) == PairOctets(PairCode(units[0], units[1])) + Encode(units[2..])
    ensures !(|units| >= 2 && IsHigh(units[0]) && IsLow(units[1])) ==>
      Encode(units) == UnitOctets(units[0]) + Encode(units[1..])
  {
    hide PairCode, PairOctets, UnitOctets, IsHigh, IsLow;
    if IsPair(units) { PairCodeRange(units[0], units[1]); }
  }

  lemma OneOctet(o: Unit)
    requires o <= 127
    ensures UnitOctets(o) == [o as Octet] && !IsHigh(o)
  {
  }

  lemma LoneSurrogate(o: Unit)
    requires o > 127 && (IsHigh(o) || IsLow(o))
    ensures UnitOctets(o) == Replacement && IsHigh(o) != IsLow(o)
  {
  }

  lemma ShortIsPlain(o: Unit)
    requires o <= 2047
    ensures !IsHigh(o) && !IsLow(o)
  {
  }

  // Encode a whole string: a buffer of three bytes a unit, and a lone high surrogate at the end
  // replaced.
  method Convert(units: seq<Unit>) returns (octets: seq<Octet>)
    ensures octets == Encode(units) && |octets| <= 3 * |units|
  {
    if |units| == 0 { return []; }
    var encoder := new Utf8Encoder(|units|);
    var used := encoder.FillBuffer(units);
    if used != |units| {
      assert units[used..] == [units[used]];
      LastHigh(units[used]);
      encoder.WriteReplacementCharacter();
    } else {
      assert units[used..] == [];
    }
    octets := encoder.buffer[..encoder.position];
  }

  lemma LastHigh(o: Unit)
    requires IsHigh(o)
    ensures Encode([o]) == Replacement
  {
    assert o > 127;
    LoneSurrogate(o);
    hide IsHigh, IsLow, UnitOctets;
    EncodeNext([o]);
    assert [o][1..] == [];
  }

  // ---------------------------------------------------------------------------------------------

  // Between characters the bits left over from the last one mean nothing.
  function Settled(state: nat, bits: bv32): Machine {
    Machine(state, if state <= 32 then 0 else bits)
  }

  lemma GatherSettled(j: nat, i: bv32, f: Octet)
    ensures Gather(Settled(j, i), f) == Gather(Machine(j, i), f)
    ensures Move(Settled(j, i), f) == Settled(Next(j, Class(f)), Gather(Machine(j, i), f))
  {
    hide Next, Class;
  }

  lemma OneStep(octets: seq<Octet>, g: nat, end: nat, j: nat, i: bv32, text: seq<Unit>)
    requires g < end <= |octets|
    ensures var f := octets[g];
            var j', i' := Next(j, Class(f)), Gather(Machine(j, i), f);
            Prepend(text, Decode(Settled(j, i), octets[g..end], g)) ==
              if j' == 0 then Prepend(text + Chars(i'), Decode(Settled(j', i'), octets[g + 1..end], g + 1))
              else if j' % 2 == 1 then Malformed(j', g)
              else Prepend(text, Decode(Settled(j', i'), octets[g + 1..end], g + 1))
  {
    hide Decode, Chars, Class, Next, Gather, Move;
    Unroll(Settled(j, i), octets[g..end], g);
    GatherSettled(j, i, octets[g]);
    assert octets[g..end][0] == octets[g] && octets[g..end][1..] == octets[g + 1..end];
  }

  lemma CopyStep(octets: seq<Octet>, next: nat, end: nat)
    requires next < end <= |octets| && octets[next] < 128
    ensures Decode(Machine(0, 0), octets[next..end], next)
         == Prepend([octets[next] as Unit], Decode(Machine(0, 0), octets[next + 1..end], next + 1))
  {
    hide Decode, Chars;
    ReadOne(Machine(0, 0), octets[next..end], next);
    assert octets[next..end][0] == octets[next] && octets[next..end][1..] == octets[next + 1..end];
    OctetChars(octets[next]);
  }

  // The short cut: one-byte characters up to the next longer one stand for themselves.
  method CopyOneOctets(octets: seq<Octet>, start: nat, end: nat) returns (next: nat, copied: seq<Unit>)
    requires start <= end <= |octets|
    ensures start <= next <= end
    ensures Decode(Machine(0, 0), octets[start..end], start)
      == Prepend(copied, Decode(Machine(0, 0), octets[next..end], next))
  {
    hide Decode, Chars;
    next, copied := start, [];
    while next < end && octets[next] < 128
      invariant start <= next <= end
      invariant Decode(Machine(0, 0), octets[start..end], start)
        == Prepend(copied, Decode(Machine(0, 0), octets[next..end], next))
    {
      CopyStep(octets, next, end);
      copied := copied + [octets[next] as Unit];
      next := next + 1;
    }
  }

  lemma JoinTexts(first: seq<Unit>, second: seq<Unit>, run: Run)
    ensures Prepend(first, Prepend(second, run)) == Prepend(first + second, run)
  {
  }

  // Bytes from `start` to `end`: the text with the last state and bits, or an error state and where
  // it arose.
  method Scan(octets: seq<Octet>, start: nat, end: nat, state: nat, bits: bv32)
    returns (text: seq<Unit>, j: nat, i: bv32, stop: nat)
    requires start < end <= |octets| && state % 2 == 0
    ensures match Decode(Settled(state, bits), octets[start..end], start)
            case Malformed(error, offset) => j % 2 == 1 && j == error && stop == offset
            case Decoded(units, m) => j % 2 == 0 && text == units && m == Settled(j, i)
  {
    hide Decode, Chars, Class, Next, Gather;
    text, j, i, stop := [], state, bits, start;
    ghost var run := Decode(Settled(state, bits), octets[start..end], start);
    while stop < end
      invariant start <= stop <= end && j % 2 == 0
      invariant run == Prepend(text, Decode(Settled(j, i), octets[stop..end], stop))
      decreases end - stop
    {
      OneStep(octets, stop, end, j, i, text);
      i, j := Gather(Machine(j, i), octets[stop]), Next(j, Class(octets[stop]));
      if j == 0 {
        text := text + Chars(i);
        var next, copied := CopyOneOctets(octets, stop + 1, end);
        JoinTexts(text, copied, Decode(Settled(j, i), octets[next..end], next));
        stop, text := next, text + copied;
      } else if j % 2 == 1 {
        return;
      } else {
        stop := stop + 1;
      }
    }
    Nothing(Settled(j, i), octets[stop..end], stop);
  }

  lemma SettledState(j: nat, i: bv32)
    ensures Settled(j, i).state == j
  {
  }

  class Utf8Decoder {
    var state: nat
    var bits: bv32
    var errorOffset: nat

    ghost function Current(): Machine
      reads this
    {
      Settled(state, bits)
    }

    constructor ()
      ensures state == Start && bits == 0
    {
      state, bits, errorOffset := Start, 0, 0;
    }

    // What a chunk of bytes does: text and a new state, or an error with its offset.
    ghost predicate Reached(run: Run, text: seq<Unit>, flush: bool, end: nat)
      reads this
    {
      match run
      case Malformed(error, offset) => state == error && errorOffset == offset
      case Decoded(units, m) =>
        if flush && m.state > 32 then state == Unfinished && errorOffset == end
        else text == units && Current() == m
    }

    // One chunk: the automaton, with a short cut through runs of one-byte characters.
    method DecodeGeneral(octets: seq<Octet>, start: nat, end: nat, flush: bool) returns (text: seq<Unit>)
      requires start < end <= |octets| && state % 2 == 0
      modifies this
      ensures Reached(Decode(old(Current()), octets[start..end], start), text, flush, end)
    {
      hide Decode, Settled;
      var j, i, stop;
      text, j, i, stop := Scan(octets, start, end, state, bits);
      if j % 2 == 1 {
        state, errorOffset := j, stop;
        return [];
      }
      if flush && j > 32 {
        SettledState(j, i);
        state, errorOffset := Unfinished, end;
        return [];
      }
      SettledState(j, i);
      state, bits := j, i;
    }

    // Long input is decoded in halves, the state carried from the first to the second.
    method DecodeRecursive(octets: seq<Octet>, start: nat, end: nat, flush: bool) returns (text: seq<Unit>)
      requires start < end <= |octets| && state % 2 == 0
      modifies this
      ensures Reached(Decode(old(Current()), octets[start..end], start), text, flush, end)
      decreases end - start
    {
      hide Decode;
      if end - start > 1000 {
        var middle := (start + end) / 2;
        DecodeSplit(Current(), octets[start..middle], octets[middle..end], start);
        assert octets[start..end] == octets[start..middle] + octets[middle..end];
        EvenStates(Current(), octets[start..middle], start);
        text := DecodeRecursive(octets, start, middle, false);
        if state % 2 == 1 { return; }
        var second := DecodeRecursive(octets, middle, end, flush);
        text := text + second;
      } else {
        text := DecodeGeneral(octets, start, end, flush);
      }
    }

    // A whole string for a new decoder: the text, or the error with its offset.
    method Convert(octets: seq<Octet>) returns (text: Text)
      requires state == Start && bits == 0
      modifies this
      ensures text == DecodeAll(octets)
    {
      if |octets| == 0 {
        Nothing(Machine(Start, 0), octets, 0);
        return Text([]);
      }
      EvenStates(Current(), octets, 0);
      assert octets[0..|octets|] == octets;
      var units := DecodeRecursive(octets, 0, |octets|, true);
      if state % 2 == 1 {
        text := FormatError(state, errorOffset);
        state := 0;
      } else {
        text := Text(units);
      }
    }
  }

  lemma OctetChars(f: Octet)
    requires f < 128
    ensures Chars(f as bv32) == [f as Unit]
  {
  }

  // Errors are odd states, and a decoder that is not in error is in an even one.
  lemma {:induction false} EvenStates(m: Machine, octets: seq<Octet>, offset: nat)
    requires m.state % 2 == 0
    ensures var run := Decode(m, octets, offset);
            (run.Malformed? ==> run.error % 2 == 1) && (run.Decoded? ==> run.machine.state % 2 == 0)
    decreases |octets|
  {
    if octets != [] {
      var next := Move(m, octets[0]);
      if next.state % 2 == 0 { EvenStates(next, octets[1..], offset + 1); }
    }
  }
}
