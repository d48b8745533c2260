/** gitmesh-git: the copy/insert delta interpreter, "Deltified representation" of
    gitformat-pack(5). */
module PackDelta {
  import opened Prelude
  import opened GitObjects
  import opened PackVarint

  // ------------------------------------------------- selected little-endian

  /** `count` bytes of a number, low byte first; the bytes whose flag is clear
      are not stored and count as zero. */
  function ReadSelected(p: Bytes, at: nat, flags: nat, count: nat): (r: Result<(nat, nat), GitError>)
    ensures r.Ok? ==> at <= r.value.1
    ensures r.Ok? && at <= |p| ==> r.value.1 <= |p|
    decreases count
  {
    if count == 0 then Ok((0, at))
    else if flags % 2 == 0 then
      var (high, next) :- ReadSelected(p, at, flags / 2, count - 1);
      Ok((256 * high, next))
    else if at >= |p| then Err(InvalidPackDelta)
    else
      var (high, next) :- ReadSelected(p, at + 1, flags / 2, count - 1);
      Ok((p[at] + 256 * high, next))
  }

  function SelectedBytes(v: nat, flags: nat, count: nat): Bytes {
    if count == 0 then []
    else (if flags % 2 == 1 then [v % 256] else []) + SelectedBytes(v / 256, flags / 2, count - 1)
  }

  /** The bytes left out are zero and nothing lies above the last one. */
  predicate Selectable(v: nat, flags: nat, count: nat) {
    if count == 0 then v == 0
    else (flags % 2 == 0 ==> v % 256 == 0) && Selectable(v / 256, flags / 2, count - 1)
  }

  lemma {:induction false} ReadSelectedExact(before: Bytes, v: nat, flags: nat, count: nat, rest: Bytes)
    requires Selectable(v, flags, count)
    ensures ReadSelected(before + SelectedBytes(v, flags, count) + rest, |before|, flags, count) ==
            Ok((v, |before| + |SelectedBytes(v, flags, count)|))
    decreases count
  {
    if count > 0 {
      var tail := SelectedBytes(v / 256, flags / 2, count - 1);
      if flags % 2 == 1 {
        assert before + SelectedBytes(v, flags, count) + rest == (before + [v % 256]) + tail + rest;
        ReadSelectedExact(before + [v % 256], v / 256, flags / 2, count - 1, rest);
      } else {
        assert before + SelectedBytes(v, flags, count) + rest == before + tail + rest;
        ReadSelectedExact(before, v / 256, flags / 2, count - 1, rest);
      }
    }
  }

  lemma {:induction false} ReadSelectedSound(p: Bytes, at: nat, flags: nat, count: nat)
    requires at <= |p| && ReadSelected(p, at, flags, count).Ok?
    ensures var (v, next) := ReadSelected(p, at, flags, count).value;
            Selectable(v, flags, count) && p[at..next] == SelectedBytes(v, flags, count)
    decreases count
  {
    if count > 0 {
      if flags % 2 == 1 {
        ReadSelectedSound(p, at + 1, flags / 2, count - 1);
        var (v, next) := ReadSelected(p, at, flags, count).value;
        assert p[at..next] == [p[at]] + p[at + 1..next];
      } else {
        ReadSelectedSound(p, at, flags / 2, count - 1);
      }
    }
  }

  // ---------------------------------------------------------- instructions

  /** One instruction with the choices its encoder made: which bytes of a copy are
      stored (`mask`), and whether its size 0x10000 is written as zero (`short`). */
  datatype Instr = Copy(offset: nat, size: nat, mask: nat, short: bool) | Insert(data: Bytes)

  function SizeField(i: Instr): nat
    requires i.Copy?
  {
    if i.short then 0 else i.size
  }

  predicate ValidInstr(i: Instr) {
    match i
    case Copy(offset, size, mask, short) =>
      && mask < 128 && (if short then size == 0x10000 else size > 0)
      && Selectable(offset, mask % 16, 4) && Selectable(SizeField(i), mask / 16, 3)
    case Insert(data) => 1 <= |data| <= 127
  }

  function InstrBytes(i: Instr): Bytes
    requires ValidInstr(i)
  {
    match i
    case Copy(offset, size, mask, short) =>
      [128 + mask] + SelectedBytes(offset, mask % 16, 4) + SelectedBytes(SizeField(i), mask / 16, 3)
    case Insert(data) => [|data|] + data
  }

  function InstrsBytes(list: seq<Instr>): Bytes
    requires forall i :: i in list ==> ValidInstr(i)
  {
    if list == [] then [] else InstrBytes(list[0]) + InstrsBytes(list[1..])
  }

  /** What an instruction appends, if its range lies in the base. */
  function Denote(i: Instr, base: Bytes): Option<Bytes> {
    match i
    case Copy(offset, size, _, _) =>
      if offset + size <= |base| then Some(base[offset..offset + size]) else None
    case Insert(data) => Some(data)
  }

  function DenoteAll(list: seq<Instr>, base: Bytes): Option<Bytes> {
    if list == [] then Some([])
    else
      match (Denote(list[0], base), DenoteAll(list[1..], base))
      case (Some(a), Some(b)) => Some(a + b)
      case _ => None
  }

  /** Any copy of the documented ranges has an encoding that stores every byte. */
  lemma CopyEncodable(offset: nat, size: nat)
    requires offset < TWO_TO_32 && 1 <= size < 0x100_0000
    ensures ValidInstr(Copy(offset, size, 127, false))
    ensures ValidInstr(Copy(offset, 0x10000, 15, true))
  {
    var o1, o2, o3 := offset / 256, offset / 256 / 256, offset / 256 / 256 / 256;
    assert o3 / 256 == 0;
    assert Selectable(o3, 1, 1) && Selectable(o2, 3, 2) && Selectable(o1, 7, 3);
    var s1, s2 := size / 256, size / 256 / 256;
    assert s2 / 256 == 0;
    assert Selectable(s2, 1, 1) && Selectable(s1, 3, 2);
    assert Selectable(0, 0, 1) && Selectable(0, 0, 2);
  }

  // ----------------------------------------------------------- decoding

  /** The instruction at the front of `p` and its length. */
  function DecodeInstr(p: Bytes): (r: Result<(Instr, nat), GitError>)
    requires p != []
    ensures r.Ok? ==> 0 < r.value.1 <= |p|
  {
    var command := p[0];
    if command >= 128 then
      var (offset, c1) :- ReadSelected(p, 1, command % 16, 4);
      var (size, c2) :- ReadSelected(p, c1, command / 16 % 8, 3);
      Ok((Copy(offset, if size == 0 then 0x10000 else size, command % 128, size == 0), c2))
    else if command != 0 then
      if 1 + command <= |p| then Ok((Insert(p[1..1 + command]), 1 + command)) else Err(InvalidPackDelta)
    else Err(InvalidPackDelta)
  }

  /** The command loop of `apply_pack_delta`. */
  function RunDelta(base: Bytes, p: Bytes, out: Bytes): Result<Bytes, GitError>
    decreases |p|
  {
    if p == [] then Ok(out)
    else
      var (i, n) :- DecodeInstr(p);
      match Denote(i, base)
      case None => Err(InvalidPackDelta)
      case Some(bytes) => RunDelta(base, p[n..], out + bytes)
  }

  /** `apply_pack_delta`. */
  function ApplyDelta(base: Bytes, delta: Bytes): Result<Bytes, GitError> {
    var (sourceLen, c1) :- ReadDeltaVarint(delta, 0);
    if sourceLen != |base| then Err(InvalidPackDelta)
    else
      var (targetLen, c2) :- ReadDeltaVarint(delta, c1);
      var out :- RunDelta(base, delta[c2..], []);
      if |out| == targetLen then Ok(out) else Err(InvalidPackDelta)
  }

  /** The flagged bytes of one number, as the two inner loops collect them. */
  method CollectSelected(delta: Bytes, start: nat, flags: nat, count: nat) returns (r: Result<(nat, nat), GitError>)
    requires start <= |delta|
    ensures r == ReadSelected(delta, start, flags, count)
  {
    var value: nat, cursor: nat, bits: nat, scale: nat := 0, start, flags, 1;
    for shift := 0 to count
      invariant cursor <= |delta|
      invariant ReadSelected(delta, start, flags, count) ==
                Scaled(value, scale, ReadSelected(delta, cursor, bits, count - shift))
    {
      if bits % 2 == 1 {
        if cursor >= |delta| {
          return Err(InvalidPackDelta);
        }
        ScaledStep(value, scale, delta[cursor], ReadSelected(delta, cursor + 1, bits / 2, count - shift - 1));
        value := value + delta[cursor] * scale;
        cursor := cursor + 1;
      } else {
        ScaledStep(value, scale, 0, ReadSelected(delta, cursor, bits / 2, count - shift - 1));
      }
      bits, scale := bits / 2, scale * 256;
    }
    return Ok((value, cursor));
  }

  function Scaled(value: nat, scale: nat, r: Result<(nat, nat), GitError>): Result<(nat, nat), GitError> {
    match r
    case Ok((high, next)) => Ok((value + scale * high, next))
    case Err(e) => Err(e)
  }

  lemma ScaledStep(value: nat, scale: nat, b: nat, r: Result<(nat, nat), GitError>)
    ensures r.Ok? ==> value + scale * (b + 256 * r.value.0) == value + b * scale + scale * 256 * r.value.0
  {
  }

  /** The body of the command loop up to the append: the instruction at `from`
      and the cursor after it. */
  method ReadInstr(delta: Bytes, from: nat) returns (r: Result<(Instr, nat), GitError>)
    requires from < |delta|
    ensures r == match DecodeInstr(delta[from..])
                 case Ok((i, n)) => Ok((i, from + n))
                 case Err(e) => Err(e)
  {
    hide ReadSelected;
    ghost var p := delta[from..];
    var command := delta[from];
    var cursor := from + 1;
    if command >= 128 {
      var offset := CollectSelected(delta, cursor, command % 16, 4);
      ReadSelectedShift(delta, from, 1, command % 16, 4);
      if offset.Err? { return Err(offset.error); }
      var size := CollectSelected(delta, offset.value.1, command / 16 % 8, 3);
      ReadSelectedShift(delta, from, offset.value.1 - from, command / 16 % 8, 3);
      if size.Err? { return Err(size.error); }
      var length := if size.value.0 == 0 then 0x10000 else size.value.0;
      return Ok((Copy(offset.value.0, length, command % 128, size.value.0 == 0), size.value.1));
    } else if command != 0 {
      var end := cursor + command;
      if end > |delta| { return Err(InvalidPackDelta); }
      assert p[1..1 + command] == delta[cursor..end];
      return Ok((Insert(delta[cursor..end]), end));
    }
    return Err(InvalidPackDelta);
  }

  method ApplyPackDelta(base: Bytes, delta: Bytes) returns (r: Result<Bytes, GitError>)
    ensures r == ApplyDelta(base, delta)
  {
    hide ReadDeltaVarint, DecodeInstr;
    var source := DeltaVarint(delta, 0);
    if source.Err? { return Err(source.error); }
    if source.value.0 != |base| { return Err(InvalidPackDelta); }
    var target := DeltaVarint(delta, source.value.1);
    if target.Err? { return Err(target.error); }
    var out: Bytes := [];
    var cursor := target.value.1;
    while cursor < |delta|
      invariant cursor <= |delta|
      invariant RunDelta(base, delta[target.value.1..], []) == RunDelta(base, delta[cursor..], out)
    {
      var instr := ReadInstr(delta, cursor);
      if instr.Err? { return Err(instr.error); }
      match instr.value.0 {
        case Copy(offset, size, _, _) =>
          var end := offset + size;
          if end > |base| { return Err(InvalidPackDelta); }
          out := out + base[offset..end];
        case Insert(data) =>
          out := out + data;
      }
      assert delta[cursor..][instr.value.1 - cursor..] == delta[instr.value.1..];
      cursor := instr.value.1;
    }
    if |out| != target.value.0 { return Err(InvalidPackDelta); }
    return Ok(out);
  }

  /** Reading at a cursor of the whole is reading inside the suffix. */
  lemma {:induction false} ReadSelectedShift(p: Bytes, from: nat, at: nat, flags: nat, count: nat)
    requires from <= |p|
    ensures ReadSelected(p, from + at, flags, count) ==
            match ReadSelected(p[from..], at, flags, count)
            case Ok((v, next)) => Ok((v, from + next))
            case Err(e) => Err(e)
    decreases count
  {
    if count > 0 {
      ReadSelectedShift(p, from, at, flags / 2, count - 1);
      ReadSelectedShift(p, from, at + 1, flags / 2, count - 1);
    }
  }

  // ------------------------------------------------------------ exactness

  lemma DecodeInstrOfBytes(i: Instr, rest: Bytes)
    requires ValidInstr(i)
    ensures DecodeInstr(InstrBytes(i) + rest) == Ok((i, |InstrBytes(i)|))
  {
    hide ReadSelected, SelectedBytes, Selectable;
    var p := InstrBytes(i) + rest;
    match i
    case Insert(data) =>
      assert p[1..1 + |data|] == data;
    case Copy(offset, size, mask, short) =>
      var a, b := SelectedBytes(offset, mask % 16, 4), SelectedBytes(SizeField(i), mask / 16, 3);
      assert p == [128 + mask] + a + (b + rest);
      ReadSelectedExact([128 + mask], offset, mask % 16, 4, b + rest);
      assert p == ([128 + mask] + a) + b + rest;
      ReadSelectedExact([128 + mask] + a, SizeField(i), mask / 16, 3, rest);
  }

  lemma CommandBits(command: nat)
    requires 128 <= command < 256
    ensures command % 128 % 16 == command % 16 && command % 128 / 16 == command / 16 % 8 && 128 + command % 128 == command
  {
  }

  /** A copy instruction is read from its own bytes. */
  lemma DecodeCopySound(p: Bytes)
    requires p != [] && p[0] >= 128 && DecodeInstr(p).Ok?
    ensures var (i, n) := DecodeInstr(p).value;
            ValidInstr(i) && p[..n] == InstrBytes(i)
  {
    hide ReadSelected, SelectedBytes, Selectable;
    var command := p[0];
    CommandBits(command);
    var (offset, c1) := ReadSelected(p, 1, command % 16, 4).value;
    var (size, c2) := ReadSelected(p, c1, command / 16 % 8, 3).value;
    ReadSelectedSound(p, 1, command % 16, 4);
    ReadSelectedSound(p, c1, command / 16 % 8, 3);
    assert p[..c2] == [command] + p[1..c1] + p[c1..c2];
  }

  lemma DecodeInstrSound(p: Bytes)
    requires p != [] && DecodeInstr(p).Ok?
    ensures var (i, n) := DecodeInstr(p).value;
            ValidInstr(i) && p[..n] == InstrBytes(i)
  {
    hide ReadSelected, SelectedBytes, Selectable;
    if p[0] >= 128 { DecodeCopySound(p); }
  }

  lemma {:induction false} RunDeltaOfInstrs(base: Bytes, list: seq<Instr>, out: Bytes)
    requires forall i :: i in list ==> ValidInstr(i)
    ensures RunDelta(base, InstrsBytes(list), out) ==
            match DenoteAll(list, base)
            case Some(bytes) => Ok(out + bytes)
            case None => Err(InvalidPackDelta)
    decreases |list|
  {
    hide InstrBytes, ValidInstr, DecodeInstr, Denote;
    if list == [] {
      assert out + [] == out;
    } else {
      var i, rest := list[0], InstrsBytes(list[1..]);
      DecodeInstrOfBytes(i, rest);
      InstrBytesNonEmpty(i);
      assert InstrsBytes(list)[|InstrBytes(i)|..] == rest;
      match Denote(i, base)
      case None =>
      case Some(bytes) =>
        RunDeltaOfInstrs(base, list[1..], out + bytes);
        var tail := DenoteAll(list[1..], base);
        assert tail.Some? ==> out + bytes + tail.value == out + (bytes + tail.value);
    }
  }

  lemma InstrBytesNonEmpty(i: Instr)
    requires ValidInstr(i)
    ensures InstrBytes(i) != []
  {
  }

  lemma {:induction false} RunDeltaSound(base: Bytes, p: Bytes, out: Bytes) returns (list: seq<Instr>)
    requires RunDelta(base, p, out).Ok?
    ensures forall i :: i in list ==> ValidInstr(i)
    ensures p == InstrsBytes(list)
    ensures DenoteAll(list, base).Some? && RunDelta(base, p, out).value == out + DenoteAll(list, base).value
    decreases |p|
  {
    hide InstrBytes, ValidInstr, DecodeInstr, Denote;
    if p == [] {
      list := [];
      assert out + [] == out;
    } else {
      var (i, n) := DecodeInstr(p).value;
      var bytes := Denote(i, base).value;
      DecodeInstrSound(p);
      var rest := RunDeltaSound(base, p[n..], out + bytes);
      list := [i] + rest;
      assert list[1..] == rest;
      assert p == p[..n] + p[n..];
      var tail := DenoteAll(rest, base).value;
      assert out + bytes + tail == out + (bytes + tail);
    }
  }

  /** Applying the encoding of any valid instruction list gives the concatenation
      the instructions denote, whatever bytes the encoder left out, provided
      every copy lies in the base and the declared lengths are right. */
  lemma ApplyDeltaOfInstrs(base: Bytes, list: seq<Instr>)
    requires forall i :: i in list ==> ValidInstr(i)
    requires DenoteAll(list, base).Some?
    requires |base| < TWO_TO_64 && |DenoteAll(list, base).value| < TWO_TO_64
    ensures var target := DenoteAll(list, base).value;
            var delta := DeltaVarintBytes(|base|) + DeltaVarintBytes(|target|) + InstrsBytes(list);
            ApplyDelta(base, delta) == Ok(target)
  {
    hide ReadDeltaVarint, DeltaVarintBytes, RunDelta, InstrsBytes, DenoteAll;
    var target := DenoteAll(list, base).value;
    var a, b, c := DeltaVarintBytes(|base|), DeltaVarintBytes(|target|), InstrsBytes(list);
    var delta := a + b + c;
    assert delta == [] + a + (b + c);
    DeltaVarintRoundTrip([], |base|, b + c);
    DeltaVarintRoundTrip(a, |target|, c);
    assert delta[|a| + |b|..] == c;
    RunDeltaOfInstrs(base, list, []);
    assert [] + target == target;
  }

  /** Conversely an accepted delta is two length codes, the first for the base and
      the second for the result, followed by the encoding of an instruction list
      that denotes the result. */
  lemma ApplyDeltaSound(base: Bytes, delta: Bytes) returns (lengths: nat, list: seq<Instr>)
    requires ApplyDelta(base, delta).Ok?
    ensures forall i :: i in list ==> ValidInstr(i)
    ensures lengths <= |delta| && delta == delta[..lengths] + InstrsBytes(list)
    ensures DenoteAll(list, base) == Some(ApplyDelta(base, delta).value)
    ensures ReadDeltaVarint(delta, 0).Ok? && ReadDeltaVarint(delta, 0).value.0 == |base|
    ensures ReadDeltaVarint(delta, ReadDeltaVarint(delta, 0).value.1) == Ok((|ApplyDelta(base, delta).value|, lengths))
  {
    hide ReadDeltaVarint, RunDelta, InstrsBytes, DenoteAll;
    var c1 := ReadDeltaVarint(delta, 0).value.1;
    lengths := ReadDeltaVarint(delta, c1).value.1;
    list := RunDeltaSound(base, delta[lengths..], []);
    var target := DenoteAll(list, base).value;
    assert [] + target == target;
    assert delta == delta[..lengths] + delta[lengths..];
  }
}
