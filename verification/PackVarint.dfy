/** gitmesh-git: the variable-length integers of a pack, "Size encoding" and the
    OFS_DELTA offset of gitformat-pack(5).  The high bit of a byte says that
    another byte follows.  `checked_shl` guards the amount of a shift and not the
    bits it drops, so a left shift is a product taken modulo 2^64. */
module PackVarint {
  import opened Prelude
  import opened GitObjects

  predicate Continues(b: byte) { b >= 128 }

  /** A complete code: every byte but the last announces another one. */
  predicate Terminated(code: Bytes) {
    && code != [] && !Continues(code[|code| - 1])
    && forall i :: 0 <= i < |code| - 1 ==> Continues(code[i])
  }

  /** `x.checked_shl(shift)` on a 64-bit word. */
  function CheckedShl(x: nat, shift: nat): Option<nat> {
    if shift < 64 then Some(x * Pow(2, shift) % TWO_TO_64) else None
  }

  function CheckedAdd(x: nat, y: nat): Option<nat> {
    if x + y < TWO_TO_64 then Some(x + y) else None
  }

  // --------------------------------------------- little-endian base 128

  /** The accumulator loop shared by `parse_pack_object_header` and
      `read_delta_varint`: groups of seven bits, least significant first. */
  function ReadGroups(bytes: Bytes, at: nat, shift: nat, value: nat, missing: GitError, overflow: GitError):
      (r: Result<(nat, nat), GitError>)
    decreases |bytes| - at
    ensures r.Ok? ==> at < r.value.1 <= |bytes|
  {
    if at >= |bytes| then Err(missing)
    else
      match CheckedShl(bytes[at] % 128, shift)
      case None => Err(overflow)
      case Some(bits) =>
        match CheckedAdd(value, bits)
        case None => Err(overflow)
        case Some(sum) =>
          if Continues(bytes[at]) then ReadGroups(bytes, at + 1, shift + 7, sum, missing, overflow)
          else Ok((sum, at + 1))
  }

  /** `read_delta_varint`: the value and the cursor after it. */
  function ReadDeltaVarint(bytes: Bytes, cursor: nat): (r: Result<(nat, nat), GitError>)
    ensures r.Ok? ==> cursor < r.value.1 <= |bytes|
  {
    ReadGroups(bytes, cursor, 0, 0, InvalidPackDelta, InvalidPackDelta)
  }

  method DeltaVarint(bytes: Bytes, start: nat) returns (r: Result<(nat, nat), GitError>)
    ensures r == ReadDeltaVarint(bytes, start)
  {
    var value: nat, shift: nat, cursor: nat := 0, 0, start;
    while true
      invariant ReadDeltaVarint(bytes, start) == ReadGroups(bytes, cursor, shift, value, InvalidPackDelta, InvalidPackDelta)
      decreases |bytes| - cursor
    {
      if cursor >= |bytes| {
        return Err(InvalidPackDelta);
      }
      var byte := bytes[cursor];
      var bits := CheckedShl(byte % 128, shift);
      if bits.None? {
        return Err(InvalidPackDelta);
      }
      var sum := CheckedAdd(value, bits.value);
      if sum.None? {
        return Err(InvalidPackDelta);
      }
      cursor, value := cursor + 1, sum.value;
      if !Continues(byte) {
        return Ok((value, cursor));
      }
      shift := shift + 7;
    }
  }

  /** The number a complete code stands for, before any bit is lost. */
  function GroupsValue(code: Bytes): nat {
    if code == [] then 0 else code[0] % 128 + 128 * GroupsValue(code[1..])
  }

  lemma ModUnique(x: nat, n: nat, d: nat, m: nat)
    requires n > 0 && x == n * d + m && m < n
    ensures x % n == m
  {
    var e := x / n;
    if d < e {
      MulGap(n, d, e);
    } else if e < d {
      MulGap(n, e, d);
    }
  }

  lemma ModScale(g: nat, p: nat, q: nat)
    requires p > 0 && q > 0
    ensures p * q > 0 && g * p % (p * q) == g % q * p
    ensures g * p == (p * q) * (g / q) + g % q * p
  {
    var d, m := g / q, g % q;
    assert g * p == (q * d + m) * p == (q * d) * p + m * p;
    assert (q * d) * p == (p * q) * d;
    MulGap(p, m, q);
    assert m * p < p * q;
    ModUnique(g * p, p * q, d, m * p);
  }

  lemma ModPlus(x: nat, y: nat, n: nat, d: nat, value: nat)
    requires n > 0 && x == n * d + y && value + y < n
    ensures x % n == y && (value + x) % n == value + y
  {
    ModUnique(x, n, d, y);
    ModUnique(value + x, n, d, value + y);
  }

  /** The part of `g * p` that survives modulo `p * q`, with room for `p` more. */
  lemma ScaledRemainder(g: nat, p: nat, q: nat) returns (y: nat)
    requires p > 0 && q > 0
    ensures y == g % q * p && p * q > 0 && y + p <= p * q
    ensures g * p == (p * q) * (g / q) + y
    ensures g < q ==> y == g * p
  {
    y := g % q * p;
    ModScale(g, p, q);
    MulGap(p, g % q, q);
  }

  lemma GroupArithmetic(g: nat, p: nat, q: nat, n: nat, value: nat)
    requires q > 0 && value < p && n == p * q
    ensures n > 0 && value + g * p % n < n
    ensures value + g * p % n == (value + g * p) % n
    ensures g < q ==> value + g * p % n == value + g * p
  {
    var y := ScaledRemainder(g, p, q);
    ModPlus(g * p, y, n, g / q, value);
  }

  lemma Pow2Facts(shift: nat)
    requires shift < 64
    ensures Pow(2, shift) > 0 && Pow(2, 64 - shift) > 0
    ensures Pow(2, shift) * Pow(2, 64 - shift) == TWO_TO_64
    ensures Pow(2, shift + 7) == 128 * Pow(2, shift)
    ensures shift + 7 < 64 ==> Pow(2, 64 - shift) >= 128
  {
    PowPositive(2, shift);
    PowPositive(2, 64 - shift);
    PowAdd(2, shift, 64 - shift);
    PowAdd(2, shift, 7);
    assert Pow(2, 7) == 128 by {
      PowAdd(2, 3, 4);
      assert Pow(2, 3) == 8 && Pow(2, 4) == 16;
    }
    Pow2Is64();
    if shift + 7 < 64 {
      PowAdd(2, 7, 57 - shift);
      PowPositive(2, 57 - shift);
    }
  }

  lemma Pow2Is64()
    ensures Pow(2, 64) == TWO_TO_64
  {
    assert Pow(2, 4) == 16;
    PowAdd(2, 4, 4);
    PowAdd(2, 8, 8);
    PowAdd(2, 16, 16);
    PowAdd(2, 32, 32);
  }

  /** One group: nothing overflows while the shift is in range, and only bits
      above the word are lost. */
  lemma GroupStep(g: nat, shift: nat, value: nat)
    requires g < 128 && shift < 64 && value < Pow(2, shift)
    ensures var s := value + g * Pow(2, shift) % TWO_TO_64;
            && s < TWO_TO_64
            && s == (value + g * Pow(2, shift)) % TWO_TO_64
            && (shift + 7 < 64 ==> s == value + g * Pow(2, shift) < Pow(2, shift + 7))
  {
    hide Pow;
    Pow2Facts(shift);
    var p := Pow(2, shift);
    GroupArithmetic(g, p, Pow(2, 64 - shift), TWO_TO_64, value);
    MulGap(p, g, 128);
  }

  lemma ReadGroupsStep(bytes: Bytes, at: nat, shift: nat, value: nat, missing: GitError, overflow: GitError)
    requires at < |bytes| && shift < 64 && value < Pow(2, shift)
    ensures var s := value + bytes[at] % 128 * Pow(2, shift) % TWO_TO_64;
            s >= 0 && ReadGroups(bytes, at, shift, value, missing, overflow) ==
            if Continues(bytes[at]) then ReadGroups(bytes, at + 1, shift + 7, s, missing, overflow) else Ok((s, at + 1))
  {
    hide Pow;
    GroupStep(bytes[at] % 128, shift, value);
  }

  lemma SplitGroups(g: nat, v: nat, p: nat, value: nat)
    ensures value + g * p + v * (128 * p) == value + (g + 128 * v) * p
  {
    assert (g + 128 * v) * p == g * p + (128 * v) * p;
    assert (128 * v) * p == v * (128 * p);
  }

  /** What the loop reads, exactly: the number the code stands for, modulo 2^64,
      as long as the last group starts inside the word. */
  lemma {:induction false} ReadGroupsExact(code: Bytes, before: Bytes, rest: Bytes, shift: nat, value: nat, missing: GitError, overflow: GitError)
    requires Terminated(code)
    requires shift < 64 ==> value < Pow(2, shift)
    ensures ReadGroups(before + code + rest, |before|, shift, value, missing, overflow) ==
            if shift + 7 * (|code| - 1) < 64
            then Ok(((value + GroupsValue(code) * Pow(2, shift)) % TWO_TO_64, |before| + |code|))
            else Err(overflow)
    decreases |code|
  {
    hide Pow, ReadGroups;
    var bytes := before + code + rest;
    var at := |before|;
    assert bytes[at] == code[0];
    if shift >= 64 {
      ReadGroupsPastWord(bytes, at, shift, value, missing, overflow);
    } else {
      var g, p := code[0] % 128, Pow(2, shift);
      GroupStep(g, shift, value);
      ReadGroupsStep(bytes, at, shift, value, missing, overflow);
      if |code| == 1 {
        assert code[1..] == [];
        assert GroupsValue([]) == 0;
        assert GroupsValue(code) == g;
      } else {
        assert Continues(code[0]);
        var tail := code[1..];
        assert Terminated(tail);
        assert bytes == (before + [code[0]]) + tail + rest;
        ReadGroupsExact(tail, before + [code[0]], rest, shift + 7, value + g * p % TWO_TO_64, missing, overflow);
        Pow2Facts(shift);
        SplitGroups(g, GroupsValue(tail), p, value);
      }
    }
  }

  lemma ReadGroupsPastWord(bytes: Bytes, at: nat, shift: nat, value: nat, missing: GitError, overflow: GitError)
    requires at < |bytes| && shift >= 64
    ensures ReadGroups(bytes, at, shift, value, missing, overflow) == Err(overflow)
  {
  }

  // --------------------------------------------------- delta size varint

  /** The shortest code of `n`. */
  function DeltaVarintBytes(n: nat): Bytes {
    if n < 128 then [n] else [n % 128 + 128] + DeltaVarintBytes(n / 128)
  }

  lemma {:induction false} DeltaVarintBytesValue(n: nat)
    ensures Terminated(DeltaVarintBytes(n)) && GroupsValue(DeltaVarintBytes(n)) == n
  {
    var code := DeltaVarintBytes(n);
    if n < 128 {
      assert code[1..] == [];
    } else {
      DeltaVarintBytesValue(n / 128);
      assert code[1..] == DeltaVarintBytes(n / 128);
    }
  }

  lemma {:induction false} DeltaVarintBytesLength(n: nat, k: nat)
    requires n < Pow(128, k)
    ensures |DeltaVarintBytes(n)| <= if k == 0 then 1 else k
  {
    if n >= 128 && k > 0 { DeltaVarintBytesLength(n / 128, k - 1); }
  }

  lemma Pow128Is64()
    ensures Pow(128, 10) >= TWO_TO_64
    ensures 16 * Pow(128, 9) >= TWO_TO_64
  {
    assert Pow(128, 3) == 0x20_0000;
    PowAdd(128, 3, 3);
    PowAdd(128, 6, 3);
    PowAdd(128, 9, 1);
  }

  /** A complete code of at most ten bytes is read as its number modulo 2^64;
      so the number itself is read exactly when it fits in 64 bits. */
  lemma DeltaVarintExact(before: Bytes, code: Bytes, rest: Bytes)
    requires Terminated(code)
    ensures ReadDeltaVarint(before + code + rest, |before|) ==
            if |code| <= 10 then Ok((GroupsValue(code) % TWO_TO_64, |before| + |code|)) else Err(InvalidPackDelta)
    ensures |code| <= 10 ==>
            (ReadDeltaVarint(before + code + rest, |before|).value.0 == GroupsValue(code) <==> GroupsValue(code) < TWO_TO_64)
  {
    hide ReadGroups;
    assert Pow(2, 0) == 1;
    ReadGroupsExact(code, before, rest, 0, 0, InvalidPackDelta, InvalidPackDelta);
  }

  lemma DeltaVarintRoundTrip(before: Bytes, n: u64, rest: Bytes)
    ensures ReadDeltaVarint(before + DeltaVarintBytes(n) + rest, |before|) == Ok((n, |before| + |DeltaVarintBytes(n)|))
  {
    DeltaVarintBytesValue(n);
    Pow128Is64();
    DeltaVarintBytesLength(n, 10);
    DeltaVarintExact(before, DeltaVarintBytes(n), rest);
  }

  /** Two different codes, of ten bytes and of one, are read as the same number:
      the bit above the word is dropped without an error. */
  lemma LostBitsCollide()
    ensures var long := seq(9, _ => 128) + [2];
            && Terminated(long) && Terminated([0]) && GroupsValue(long) != GroupsValue([0])
            && ReadDeltaVarint(long, 0) == Ok((0, 10)) && ReadDeltaVarint([0], 0) == Ok((0, 1))
  {
    hide ReadDeltaVarint, Pow;
    var long := seq(9, _ => 128) + [2];
    LeadingZeroGroups(seq(9, _ => 128), [2]);
    SingleGroup(2);
    SingleGroup(0);
    TwiceNineGroups();
    DeltaVarintExact([], long, []);
    assert [] + long + [] == long;
    DeltaVarintExact([], [0], []);
    assert [] + [0] + [] == [0];
  }

  lemma SingleGroup(b: byte)
    requires !Continues(b)
    ensures GroupsValue([b]) == b && Terminated([b])
  {
    assert [b][1..] == [];
    assert GroupsValue([]) == 0;
  }

  lemma TwiceNineGroups()
    ensures 2 * Pow(128, 9) == TWO_TO_64
  {
    assert Pow(128, 3) == 0x20_0000;
    PowAdd(128, 3, 3);
    PowAdd(128, 6, 3);
  }

  lemma {:induction false} LeadingZeroGroups(zeros: Bytes, code: Bytes)
    requires forall i :: 0 <= i < |zeros| ==> zeros[i] == 128
    ensures GroupsValue(zeros + code) == GroupsValue(code) * Pow(128, |zeros|)
  {
    if zeros == [] {
      assert zeros + code == code;
    } else {
      assert (zeros + code)[1..] == zeros[1..] + code;
      LeadingZeroGroups(zeros[1..], code);
      assert 128 * (GroupsValue(code) * Pow(128, |zeros| - 1)) == GroupsValue(code) * Pow(128, |zeros|);
    }
  }

  // --------------------------------------------------- pack entry header

  /** `parse_pack_object_header`: kind, size, bytes used. */
  function ParseEntryHeader(bytes: Bytes): (r: Result<(nat, nat, nat), GitError>)
    ensures r.Ok? ==> r.value.0 < 8 && 0 < r.value.2 <= |bytes|
  {
    if bytes == [] then Err(MalformedPack)
    else
      var kind, low := bytes[0] / 16 % 8, bytes[0] % 16;
      if !Continues(bytes[0]) then Ok((kind, low, 1))
      else
        var (size, used) :- ReadGroups(bytes, 1, 4, low, MalformedPack, InvalidLength);
        Ok((kind, size, used))
  }

  method EntryHeader(bytes: Bytes) returns (r: Result<(nat, nat, nat), GitError>)
    ensures r == ParseEntryHeader(bytes)
  {
    if bytes == [] {
      return Err(MalformedPack);
    }
    var byte := bytes[0];
    var kind: nat, size: nat, shift: nat, consumed: nat := byte / 16 % 8, byte % 16, 4, 1;
    while Continues(byte)
      invariant 1 <= consumed <= |bytes|
      invariant kind == bytes[0] / 16 % 8
      invariant Continues(byte) ==> Continues(bytes[0])
      invariant Continues(byte) ==>
                  ReadGroups(bytes, 1, 4, bytes[0] % 16, MalformedPack, InvalidLength) ==
                  ReadGroups(bytes, consumed, shift, size, MalformedPack, InvalidLength)
      invariant !Continues(byte) ==> ParseEntryHeader(bytes) == Ok((kind, size, consumed))
      decreases |bytes| - consumed, if Continues(byte) then 1 else 0
    {
      if consumed >= |bytes| {
        return Err(MalformedPack);
      }
      byte := bytes[consumed];
      var bits := CheckedShl(byte % 128, shift);
      if bits.None? {
        return Err(InvalidLength);
      }
      var sum := CheckedAdd(size, bits.value);
      if sum.None? {
        return Err(InvalidLength);
      }
      size, shift, consumed := sum.value, shift + 7, consumed + 1;
    }
    return Ok((kind, size, consumed));
  }

  /** `write_pack_object_header`. */
  function EntryHeaderBytes(kind: nat, size: nat): Bytes {
    [HeaderFirst(kind, size)] + SizeTail(size / 16)
  }

  function HeaderFirst(kind: nat, size: nat): byte {
    kind % 8 * 16 + size % 16 + (if size / 16 != 0 then 128 else 0)
  }

  function SizeTail(size: nat): Bytes {
    if size == 0 then [] else DeltaVarintBytes(size)
  }

  lemma SizeTailStep(size: nat)
    requires size > 0
    ensures SizeTail(size) == [size % 128 + (if size / 128 != 0 then 128 else 0)] + SizeTail(size / 128)
  {
  }

  method WriteEntryHeader(kind: nat, total: nat) returns (bytes: Bytes)
    ensures bytes == EntryHeaderBytes(kind, total)
  {
    hide SizeTail;
    var byte: nat := kind % 8 * 16 + total % 16;
    var size: nat := total / 16;
    if size != 0 {
      byte := byte + 128;
    }
    bytes := [byte];
    while size != 0
      invariant EntryHeaderBytes(kind, total) == bytes + SizeTail(size)
    {
      SizeTailStep(size);
      ghost var written := bytes;
      var next: nat := size % 128;
      size := size / 128;
      if size != 0 {
        next := next + 128;
      }
      bytes := bytes + [next];
      assert written + ([next] + SizeTail(size)) == bytes + SizeTail(size);
    }
    SizeTailZero();
    assert bytes + [] == bytes;
  }

  lemma SizeTailZero()
    ensures SizeTail(0) == []
  {
  }

  lemma HeaderByte(kind: nat, low: nat)
    requires kind < 8 && low < 16
    ensures (kind * 16 + low) / 16 % 8 == kind && (kind * 16 + low) % 16 == low && kind * 16 + low < 128
    ensures (kind * 16 + low + 128) / 16 % 8 == kind && (kind * 16 + low + 128) % 16 == low
  {
  }

  /** Reading back a written header gives the kind, the size and the length. */
  lemma EntryHeaderRoundTrip(kind: nat, size: u64, rest: Bytes)
    requires kind < 8
    ensures ParseEntryHeader(EntryHeaderBytes(kind, size) + rest) == Ok((kind, size, |EntryHeaderBytes(kind, size)|))
  {
    hide ReadGroups, DeltaVarintBytes, Pow;
    var bytes := EntryHeaderBytes(kind, size) + rest;
    HeaderByte(kind, size % 16);
    assert bytes[0] == HeaderFirst(kind, size);
    if size >= 16 {
      var code := DeltaVarintBytes(size / 16);
      DeltaVarintBytesValue(size / 16);
      Pow128Is64();
      DeltaVarintBytesLength(size / 16, 9);
      assert bytes == [bytes[0]] + code + rest;
      PowTwoFour();
      ReadGroupsExact(code, [bytes[0]], rest, 4, size % 16, MalformedPack, InvalidLength);
    }
  }

  lemma PowTwoFour()
    ensures Pow(2, 4) == 16
  {
  }

  // ------------------------------------------------------ OFS_DELTA code

  /** The loop of `parse_ofs_delta_base_offset`: big-endian groups, one added at
      every step. */
  function ReadOffset(bytes: Bytes, at: nat, value: nat): (r: Result<(nat, nat), GitError>)
    decreases |bytes| - at
    ensures r.Ok? ==> at < r.value.1 <= |bytes|
  {
    if at >= |bytes| then Err(MalformedPack)
    else
      match CheckedAdd(value, 1)
      case None => Err(InvalidPackDelta)
      case Some(next) =>
        var sum := next * 128 % TWO_TO_64 + bytes[at] % 128;
        if Continues(bytes[at]) then ReadOffset(bytes, at + 1, sum) else Ok((sum, at + 1))
  }

  /** The distance to the base and the bytes used. */
  function OffsetDistance(bytes: Bytes): (r: Result<(nat, nat), GitError>)
    ensures r.Ok? ==> 0 < r.value.1 <= |bytes|
  {
    if bytes == [] then Err(MalformedPack)
    else if Continues(bytes[0]) then ReadOffset(bytes, 1, bytes[0] % 128)
    else Ok((bytes[0] % 128, 1))
  }

  /** `parse_ofs_delta_base_offset`. */
  function ParseBaseOffset(bytes: Bytes, objectOffset: nat): (r: Result<(nat, nat), GitError>)
    ensures r.Ok? ==> 0 < r.value.1 <= |bytes|
  {
    var (distance, used) :- OffsetDistance(bytes);
    if distance <= objectOffset then Ok((objectOffset - distance, used)) else Err(InvalidPackDelta)
  }

  method BaseOffset(bytes: Bytes, objectOffset: nat) returns (r: Result<(nat, nat), GitError>)
    ensures r == ParseBaseOffset(bytes, objectOffset)
  {
    if bytes == [] {
      return Err(MalformedPack);
    }
    var byte := bytes[0];
    var value: nat, consumed: nat := byte % 128, 1;
    while Continues(byte)
      invariant 1 <= consumed <= |bytes|
      invariant Continues(byte) ==> OffsetDistance(bytes) == ReadOffset(bytes, consumed, value)
      invariant !Continues(byte) ==> OffsetDistance(bytes) == Ok((value, consumed))
      decreases |bytes| - consumed, if Continues(byte) then 1 else 0
    {
      if consumed >= |bytes| {
        return Err(MalformedPack);
      }
      byte := bytes[consumed];
      var next := CheckedAdd(value, 1);
      if next.None? {
        return Err(InvalidPackDelta);
      }
      // The shifted word is a multiple of 128, so adding a group cannot overflow.
      value := next.value * 128 % TWO_TO_64 + byte % 128;
      consumed := consumed + 1;
    }
    if value > objectOffset {
      return Err(InvalidPackDelta);
    }
    return Ok((objectOffset - value, consumed));
  }

  /** The number a complete offset code stands for. */
  function OffsetValue(code: Bytes): nat
    requires code != []
  {
    var n := |code| - 1;
    if n == 0 then code[0] % 128 else (OffsetValue(code[..n]) + 1) * 128 + code[n] % 128
  }

  lemma {:induction false} OffsetValuePrefix(code: Bytes, i: nat)
    requires 0 < i <= |code|
    ensures OffsetValue(code[..i]) <= OffsetValue(code)
    ensures i < |code| ==> OffsetValue(code[..i]) < OffsetValue(code)
    decreases |code|
  {
    if i < |code| {
      assert code[..|code| - 1][..i] == code[..i];
      OffsetValuePrefix(code[..|code| - 1], i);
    } else {
      assert code[..i] == code;
    }
  }

  lemma OffsetValueStep(code: Bytes, at: nat)
    requires 0 < at < |code|
    ensures OffsetValue(code[..at + 1]) == (OffsetValue(code[..at]) + 1) * 128 + code[at] % 128
  {
    assert code[..at + 1][..at] == code[..at];
  }

  lemma {:induction false} ReadOffsetExact(code: Bytes, rest: Bytes, at: nat)
    requires Terminated(code) && 0 < at < |code| && OffsetValue(code) < TWO_TO_64
    ensures ReadOffset(code + rest, at, OffsetValue(code[..at])) == Ok((OffsetValue(code), |code|))
    decreases |code| - at
  {
    hide OffsetValue;
    OffsetValuePrefix(code, at + 1);
    OffsetValueStep(code, at);
    assert (code + rest)[at] == code[at];
    if at + 1 < |code| {
      assert Continues(code[at]);
      ReadOffsetExact(code, rest, at + 1);
    } else {
      assert code[..at + 1] == code;
    }
  }

  /** A complete code whose number fits in 64 bits is read as that number. */
  lemma OffsetCodeRead(code: Bytes, rest: Bytes)
    requires Terminated(code) && OffsetValue(code) < TWO_TO_64
    ensures OffsetDistance(code + rest) == Ok((OffsetValue(code), |code|))
  {
    assert (code + rest)[0] == code[0];
    if |code| > 1 {
      assert Continues(code[0]);
      assert code[..1][0] == code[0];
      ReadOffsetExact(code, rest, 1);
    }
  }

  /** Bijective numeration: no two complete codes stand for the same number. */
  lemma {:induction false} OffsetCodeInjective(a: Bytes, b: Bytes)
    requires Terminated(a) && Terminated(b) && OffsetValue(a) == OffsetValue(b)
    ensures a == b
  {
    OffsetGroupsInjective(a, b);
  }

  lemma {:induction false} OffsetGroupsInjective(a: Bytes, b: Bytes)
    requires a != [] && b != [] && OffsetValue(a) == OffsetValue(b)
    requires Continues(a[|a| - 1]) == Continues(b[|b| - 1])
    requires forall i :: 0 <= i < |a| - 1 ==> Continues(a[i])
    requires forall i :: 0 <= i < |b| - 1 ==> Continues(b[i])
    ensures a == b
    decreases |a|
  {
    var m, n := |a| - 1, |b| - 1;
    if m > 0 && n > 0 {
      OffsetGroupsInjective(a[..m], b[..n]);
      assert a == a[..m] + [a[m]] && b == b[..n] + [b[n]];
    }
  }

  function OffsetHigh(value: nat): Bytes {
    if value < 128 then [value + 128] else OffsetHigh(value / 128 - 1) + [value % 128 + 128]
  }

  /** The encoder of the repository's tests. */
  function OffsetBytes(offset: nat): Bytes {
    if offset < 128 then [offset] else OffsetHigh(offset / 128 - 1) + [offset % 128]
  }

  lemma {:induction false} OffsetHighValue(value: nat)
    ensures OffsetHigh(value) != [] && OffsetValue(OffsetHigh(value)) == value
    ensures forall i :: 0 <= i < |OffsetHigh(value)| ==> Continues(OffsetHigh(value)[i])
  {
    if value >= 128 {
      var p := OffsetHigh(value / 128 - 1);
      OffsetHighValue(value / 128 - 1);
      assert OffsetHigh(value)[..|p|] == p;
    }
  }

  /** Every number has exactly one complete code, the encoder's. */
  lemma OffsetCodeExact(code: Bytes, offset: nat)
    ensures Terminated(code) && OffsetValue(code) == offset <==> code == OffsetBytes(offset)
  {
    var bytes := OffsetBytes(offset);
    if offset >= 128 {
      var p := OffsetHigh(offset / 128 - 1);
      OffsetHighValue(offset / 128 - 1);
      assert bytes[..|p|] == p;
    }
    assert Terminated(bytes) && OffsetValue(bytes) == offset;
    if Terminated(code) && OffsetValue(code) == offset {
      OffsetCodeInjective(code, bytes);
    }
  }

  /** Decoding what the encoder wrote recovers every 64-bit offset. */
  lemma OffsetRoundTrip(offset: u64, rest: Bytes)
    ensures OffsetDistance(OffsetBytes(offset) + rest) == Ok((offset, |OffsetBytes(offset)|))
  {
    OffsetCodeExact(OffsetBytes(offset), offset);
    OffsetCodeRead(OffsetBytes(offset), rest);
  }
}
