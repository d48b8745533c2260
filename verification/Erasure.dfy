/** gitmesh-storage: erasure encoding of an encrypted segment and reconstruction
    of its ciphertext from verified shards. */
module Erasure {
  import Text
  import opened Prelude
  import opened Core

  /** A Reed-Solomon code for fixed shard counts: parity of the data shards, and
      the missing shards from the present ones. */
  datatype Code = Code(encode: seq<Bytes> -> Option<seq<Bytes>>, rebuild: seq<Option<Bytes>> -> Option<seq<Bytes>>)

  /** `ReedSolomon::new`, which refuses some counts. */
  type ReedSolomon = (nat, nat) -> Option<Code>

  datatype StoragePolicy = StoragePolicy(dataShards: nat, parityShards: nat, minOperators: nat, minRegions: nat) {
    function Total(): nat { dataShards + parityShards }
  }

  datatype Segment = Segment(cid: Cid, ciphertext: Bytes, ciphertextLen: nat)

  datatype Shard = Shard(segmentCid: Cid, index: nat, count: nat, dataShards: nat, bytes: Bytes, cid: Cid)

  datatype StorageError =
    | NotEnoughShards(available: nat, required: nat)
    | InvalidShardIndex(index: nat)
    | ErasureFailed
    | MissingNode(node: nat)
    | NetworkFailed

  predicate SameLengths(shards: seq<Bytes>, length: nat) {
    forall s :: s in shards ==> |s| == length
  }

  function Present(slots: seq<Option<Bytes>>): set<nat> {
    set i | 0 <= i < |slots| && slots[i].Some?
  }

  /** Some of the shards of `word`, in their places. */
  predicate PartOf(slots: seq<Option<Bytes>>, word: seq<Bytes>) {
    |slots| == |word| && forall i :: 0 <= i < |slots| && slots[i].Some? ==> slots[i].value == word[i]
  }

  /** Any `k` of the `k + m` shards of a codeword determine all of them. */
  ghost predicate Mds(code: Code, k: nat, m: nat) {
    && (forall data, length :: |data| == k && length > 0 && SameLengths(data, length) ==>
          code.encode(data).Some? && |code.encode(data).value| == m && SameLengths(code.encode(data).value, length))
    && (forall data, length, slots ::
          |data| == k && length > 0 && SameLengths(data, length) && code.encode(data).Some?
          && PartOf(slots, data + code.encode(data).value) && |Present(slots)| >= k ==>
          code.rebuild(slots) == Some(data + code.encode(data).value))
  }

  // ------------------------------------------------------------- layout

  function DivCeil(a: nat, b: nat): nat
    requires b > 0
  {
    (a + b - 1) / b
  }

  /** The data shards: the ciphertext cut into pieces of `length`, zero-padded. */
  function DataShards(c: Bytes, k: nat, length: nat): (data: seq<Bytes>)
    ensures |data| == k && SameLengths(data, length)
  {
    seq(k, j requires 0 <= j < k => DataShard(c, j, length))
  }

  function DataShard(c: Bytes, j: nat, length: nat): (s: Bytes)
    ensures |s| == length
    ensures forall r :: 0 <= r < length ==> s[r] == ByteAt(c, j * length + r)
  {
    seq<byte>(length, r requires 0 <= r < length => ByteAt(c, j * length + r))
  }

  function ByteAt(c: Bytes, i: nat): byte {
    if i < |c| then c[i] else 0
  }

  lemma DivModUnique(j: nat, r: nat, length: nat)
    requires r < length
    ensures (j * length + r) / length == j && (j * length + r) % length == r
  {
    var i := j * length + r;
    var q := i / length;
    assert i == length * q + i % length;
    if j < q { MulGap(length, j, q); }
    if q < j { MulGap(length, q, j); }
  }

  /** The shard length leaves room for every byte in the data shards. */
  lemma LayoutFits(n: nat, k: nat)
    requires k > 0
    ensures n <= k * DivCeil(n, k)
    ensures n > 0 ==> DivCeil(n, k) > 0
  {
    var x := n + k - 1;
    assert x == k * (x / k) + x % k;
  }

  /** Placement by quotient and remainder stays within the `k` data shards. */
  lemma PlacementInData(i: nat, n: nat, k: nat)
    requires i < n && k > 0
    ensures DivCeil(n, k) > 0 && i / DivCeil(n, k) < k && i % DivCeil(n, k) < DivCeil(n, k)
  {
    LayoutFits(n, k);
    var length := DivCeil(n, k);
    var q := i / length;
    assert i == length * q + i % length;
    if q >= k {
      MulGap(length, k - 1, k);
      if q > k { MulGap(length, k, q); }
    }
  }

  // ----------------------------------------------------------- encoding

  function MakeShard(hash: Hash, s: Segment, p: StoragePolicy, index: nat, bytes: Bytes): Shard {
    Shard(s.cid, index, p.Total(), p.dataShards, bytes, ShardCid(hash, s.cid, index, bytes))
  }

  /** Data and parity shards of a segment. */
  function Codeword(rs: ReedSolomon, s: Segment, p: StoragePolicy): Result<seq<Bytes>, StorageError> {
    match rs(p.dataShards, p.parityShards)
    case None => Err(ErasureFailed)
    case Some(code) =>
      if p.dataShards == 0 then Err(ErasureFailed)
      else
        var data := DataShards(s.ciphertext, p.dataShards, DivCeil(|s.ciphertext|, p.dataShards));
        match code.encode(data)
        case None => Err(ErasureFailed)
        case Some(parity) => Ok(data + parity)
  }

  function ShardsOf(hash: Hash, s: Segment, p: StoragePolicy, word: seq<Bytes>): (r: seq<Shard>)
    ensures |r| == |word|
    ensures forall i :: 0 <= i < |word| ==> r[i] == MakeShard(hash, s, p, i, word[i])
  {
    seq(|word|, i requires 0 <= i < |word| => MakeShard(hash, s, p, i, word[i]))
  }

  /** `erasure_encode`. */
  function Encode(hash: Hash, rs: ReedSolomon, s: Segment, p: StoragePolicy): Result<seq<Shard>, StorageError> {
    match Codeword(rs, s, p)
    case Ok(word) => Ok(ShardsOf(hash, s, p, word))
    case Err(e) => Err(e)
  }

  /** Shard `j` after the first `i` bytes have been placed. */
  function PartialShard(c: Bytes, i: nat, j: nat, length: nat): (s: Bytes)
    ensures |s| == length
    ensures forall r :: 0 <= r < length ==> s[r] == PlacedByte(c, i, j * length + r)
  {
    seq<byte>(length, r requires 0 <= r < length => PlacedByte(c, i, j * length + r))
  }

  function PlacedByte(c: Bytes, i: nat, x: nat): byte {
    if x < i then ByteAt(c, x) else 0
  }

  lemma PlaceStep(c: Bytes, i: nat, j: nat, length: nat)
    requires i < |c| && length > 0
    ensures j != i / length ==> PartialShard(c, i + 1, j, length) == PartialShard(c, i, j, length)
    ensures j == i / length ==> PartialShard(c, i + 1, j, length) == PartialShard(c, i, j, length)[i % length := c[i]]
  {
    var q, r := i / length, i % length;
    assert q * length + r == i;
    forall t | 0 <= t < length
      ensures if (j, t) == (q, r) then PartialShard(c, i + 1, j, length)[t] == c[i]
              else PartialShard(c, i + 1, j, length)[t] == PartialShard(c, i, j, length)[t]
    {
      DivModUnique(j, t, length);
    }
  }

  lemma AllPlaced(c: Bytes, j: nat, length: nat)
    ensures PartialShard(c, |c|, j, length) == DataShard(c, j, length)
    ensures PartialShard(c, 0, j, length) == seq<byte>(length, _ => 0)
  {
  }

  /** The byte-by-byte placement of `erasure_encode`. */
  method PlaceBytes(c: Bytes, k: nat, n: nat) returns (shards: seq<Bytes>)
    requires 0 < k <= n
    ensures |shards| == n && shards[..k] == DataShards(c, k, DivCeil(|c|, k))
  {
    hide PartialShard, DivCeil;
    var length := DivCeil(|c|, k);
    shards := seq(n, _ => seq(length, _ => 0));
    forall j | 0 <= j < k
      ensures shards[j] == PartialShard(c, 0, j, length)
    {
      AllPlaced(c, j, length);
    }
    for i := 0 to |c|
      invariant |shards| == n
      invariant forall j :: 0 <= j < k ==> shards[j] == PartialShard(c, i, j, length)
    {
      PlacementInData(i, |c|, k);
      forall j | 0 <= j < k
        ensures j != i / length ==> PartialShard(c, i + 1, j, length) == PartialShard(c, i, j, length)
        ensures j == i / length ==> PartialShard(c, i + 1, j, length) == PartialShard(c, i, j, length)[i % length := c[i]]
      {
        PlaceStep(c, i, j, length);
      }
      shards := shards[i / length := shards[i / length][i % length := c[i]]];
    }
    forall j | 0 <= j < k
      ensures shards[..k][j] == DataShard(c, j, length)
    {
      AllPlaced(c, j, length);
    }
  }

  method ErasureEncode(hash: Hash, rs: ReedSolomon, s: Segment, p: StoragePolicy) returns (r: Result<seq<Shard>, StorageError>)
    ensures r == Encode(hash, rs, s, p)
  {
    hide DataShards, DivCeil, MakeShard;
    var code := rs(p.dataShards, p.parityShards);
    if code.None? || p.dataShards == 0 { return Err(ErasureFailed); }
    var placed := PlaceBytes(s.ciphertext, p.dataShards, p.Total());
    var parity := code.value.encode(placed[..p.dataShards]);
    if parity.None? { return Err(ErasureFailed); }
    var word := placed[..p.dataShards] + parity.value;
    var shards: seq<Shard> := [];
    for i := 0 to |word|
      invariant shards == ShardsOf(hash, s, p, word)[..i]
    {
      shards := shards + [MakeShard(hash, s, p, i, word[i])];
    }
    assert ShardsOf(hash, s, p, word)[..|word|] == ShardsOf(hash, s, p, word);
    return Ok(shards);
  }

  // ----------------------------------------------------- reconstruction

  /** The check that `reconstruct_ciphertext` makes of a stored shard. */
  predicate Accepts(hash: Hash, s: Segment, shard: Shard) {
    shard.segmentCid == s.cid && shard.cid == ShardCid(hash, s.cid, shard.index, shard.bytes)
  }

  /** Accepted shards in their slots; the last one of an index wins. */
  function FillSlots(hash: Hash, s: Segment, n: nat, stored: seq<Shard>): (r: Result<seq<Option<Bytes>>, StorageError>)
    ensures r.Ok? ==> |r.value| == n
  {
    if stored == [] then Ok(seq(n, _ => None))
    else
      var last := stored[|stored| - 1];
      var slots :- FillSlots(hash, s, n, stored[..|stored| - 1]);
      if last.index >= n then Err(InvalidShardIndex(last.index))
      else if Accepts(hash, s, last) then Ok(slots[last.index := Some(last.bytes)])
      else Ok(slots)
  }

  function Flatten(shards: seq<Bytes>): Bytes {
    if shards == [] then [] else shards[0] + Flatten(shards[1..])
  }

  function Truncate(b: Bytes, length: nat): Bytes {
    if length < |b| then b[..length] else b
  }

  /** `reconstruct_ciphertext`. */
  function Reconstruct(hash: Hash, rs: ReedSolomon, s: Segment, p: StoragePolicy, stored: seq<Shard>): Result<Bytes, StorageError> {
    if |stored| < p.dataShards then Err(NotEnoughShards(|stored|, p.dataShards))
    else
      match rs(p.dataShards, p.parityShards)
      case None => Err(ErasureFailed)
      case Some(code) =>
        var slots :- FillSlots(hash, s, p.Total(), stored);
        if |Present(slots)| < p.dataShards then Err(NotEnoughShards(|Present(slots)|, p.dataShards))
        else
          match code.rebuild(slots)
          case None => Err(ErasureFailed)
          case Some(word) =>
            if |word| < p.dataShards then Err(ErasureFailed)
            else Ok(Truncate(Flatten(word[..p.dataShards]), s.ciphertextLen))
  }

  method CountPresent(slots: seq<Option<Bytes>>) returns (n: nat)
    ensures n == |Present(slots)|
  {
    n := 0;
    ghost var counted: set<nat> := {};
    for i := 0 to |slots|
      invariant counted == set j | 0 <= j < i && slots[j].Some?
      invariant n == |counted|
    {
      if slots[i].Some? {
        n := n + 1;
        counted := counted + {i};
      }
    }
    assert counted == Present(slots);
  }

  method ReconstructCiphertext(hash: Hash, rs: ReedSolomon, s: Segment, p: StoragePolicy, stored: seq<Shard>) returns (r: Result<Bytes, StorageError>)
    ensures r == Reconstruct(hash, rs, s, p, stored)
  {
    if |stored| < p.dataShards { return Err(NotEnoughShards(|stored|, p.dataShards)); }
    var code := rs(p.dataShards, p.parityShards);
    if code.None? { return Err(ErasureFailed); }
    var slots: seq<Option<Bytes>> := seq(p.Total(), _ => None);
    for i := 0 to |stored|
      invariant FillSlots(hash, s, p.Total(), stored[..i]) == Ok(slots)
    {
      hide Accepts;
      var shard := stored[i];
      assert stored[..i + 1][..i] == stored[..i];
      if shard.index >= p.Total() {
        FillSlotsFails(hash, s, p.Total(), stored, i + 1);
        return Err(InvalidShardIndex(shard.index));
      }
      if Accepts(hash, s, shard) {
        slots := slots[shard.index := Some(shard.bytes)];
      }
    }
    assert stored[..|stored|] == stored;
    var available := CountPresent(slots);
    if available < p.dataShards { return Err(NotEnoughShards(available, p.dataShards)); }
    var word := code.value.rebuild(slots);
    if word.None? || |word.value| < p.dataShards { return Err(ErasureFailed); }
    var ciphertext: Bytes := [];
    for i := 0 to p.dataShards
      invariant ciphertext == Flatten(word.value[..i])
    {
      FlattenPush(word.value[..i], word.value[i]);
      assert word.value[..i + 1] == word.value[..i] + [word.value[i]];
      ciphertext := ciphertext + word.value[i];
    }
    return Ok(Truncate(ciphertext, s.ciphertextLen));
  }

  lemma {:induction false} FillSlotsFails(hash: Hash, s: Segment, n: nat, stored: seq<Shard>, i: nat)
    requires i <= |stored| && FillSlots(hash, s, n, stored[..i]).Err?
    ensures FillSlots(hash, s, n, stored) == FillSlots(hash, s, n, stored[..i])
    decreases |stored|
  {
    hide Accepts;
    if i < |stored| {
      assert stored[..|stored| - 1][..i] == stored[..i];
      FillSlotsFails(hash, s, n, stored[..|stored| - 1], i);
    } else {
      assert stored[..i] == stored;
    }
  }

  lemma {:induction false} FlattenPush(shards: seq<Bytes>, last: Bytes)
    ensures Flatten(shards + [last]) == Flatten(shards) + last
  {
    if shards == [] {
      assert [] + [last] == [last] && [last][1..] == [];
      assert Flatten([]) == [];
    } else {
      assert (shards + [last])[1..] == shards[1..] + [last];
      FlattenPush(shards[1..], last);
    }
  }

  lemma {:induction false} FlattenAt(shards: seq<Bytes>, length: nat, j: nat, r: nat)
    requires SameLengths(shards, length) && j < |shards| && r < length
    ensures j * length + r < |Flatten(shards)| && Flatten(shards)[j * length + r] == shards[j][r]
  {
    assert shards[0] in shards && |shards[0]| == length;
    var rest := Flatten(shards[1..]);
    assert Flatten(shards) == shards[0] + rest;
    if j > 0 {
      FlattenAt(shards[1..], length, j - 1, r);
      MulStep(j, length);
    } else {
      assert j * length == 0;
    }
  }

  lemma {:induction false} FlattenLength(shards: seq<Bytes>, length: nat)
    requires SameLengths(shards, length)
    ensures |Flatten(shards)| == |shards| * length
  {
    if shards != [] {
      assert shards[0] in shards;
      FlattenLength(shards[1..], length);
      MulStep(|shards|, length);
    }
  }

  lemma MulStep(n: nat, length: nat)
    requires n > 0
    ensures (n - 1) * length + length == n * length
  {
  }

  lemma QuotientRemainder(i: nat, length: nat)
    requires length > 0
    ensures i / length * length + i % length == i
  {
  }

  lemma FlattenDataAt(c: Bytes, data: seq<Bytes>, k: nat, length: nat, i: nat)
    requires k > 0 && length == DivCeil(|c|, k) && data == DataShards(c, k, length) && i < |c|
    ensures i < |Flatten(data)| && Flatten(data)[i] == c[i]
  {
    hide Flatten, DivCeil;
    PlacementInData(i, |c|, k);
    QuotientRemainder(i, length);
    FlattenAt(data, length, i / length, i % length);
    assert data[i / length] == DataShard(c, i / length, length);
  }

  /** The data shards put end to end start with the ciphertext. */
  lemma FlattenData(c: Bytes, k: nat)
    requires k > 0
    ensures Truncate(Flatten(DataShards(c, k, DivCeil(|c|, k))), |c|) == c
  {
    hide DivCeil, Flatten, DataShards;
    var length := DivCeil(|c|, k);
    var data := DataShards(c, k, length);
    FlattenLength(data, length);
    LayoutFits(|c|, k);
    forall i | 0 <= i < |c|
      ensures i < |Flatten(data)| && Flatten(data)[i] == c[i]
    {
      FlattenDataAt(c, data, k, length, i);
    }
    assert |c| <= |Flatten(data)|;
    assert Flatten(data)[..|c|] == c;
  }

  /** A stored shard that does no harm: its index is in range, and if it passes
      the check it carries the bytes of its place in the codeword. */
  predicate Harmless(hash: Hash, s: Segment, word: seq<Bytes>, shard: Shard) {
    shard.index < |word| && (Accepts(hash, s, shard) ==> shard.bytes == word[shard.index])
  }

  /** The places of the codeword that are stored genuinely. */
  function GenuinePlaces(hash: Hash, s: Segment, word: seq<Bytes>, stored: seq<Shard>): set<nat> {
    set x | x in stored && x.index < |word| && Accepts(hash, s, x) && x.bytes == word[x.index] :: x.index
  }

  lemma {:induction false} FillSlotsHarmless(hash: Hash, s: Segment, word: seq<Bytes>, stored: seq<Shard>)
    requires forall x :: x in stored ==> Harmless(hash, s, word, x)
    ensures FillSlots(hash, s, |word|, stored).Ok?
    ensures PartOf(FillSlots(hash, s, |word|, stored).value, word)
    ensures Present(FillSlots(hash, s, |word|, stored).value) == GenuinePlaces(hash, s, word, stored)
  {
    hide Accepts;
    if stored == [] {
      assert Present(seq(|word|, _ => None)) == {};
    } else {
      var p, last := stored[..|stored| - 1], stored[|stored| - 1];
      assert Harmless(hash, s, word, last);
      FillSlotsHarmless(hash, s, word, p);
      assert forall x :: x in stored <==> x in p || x == last;
      var slots := FillSlots(hash, s, |word|, stored).value;
      var before := FillSlots(hash, s, |word|, p).value;
      forall i
        ensures i in Present(slots) <==> i in GenuinePlaces(hash, s, word, stored)
      {
        assert i in Present(slots) <==> i in Present(before) || (Accepts(hash, s, last) && i == last.index);
      }
    }
  }

  /** What the encoder guarantees about a codeword. */
  lemma CodewordFacts(rs: ReedSolomon, s: Segment, p: StoragePolicy)
    requires s.ciphertext != [] && p.dataShards > 0
    requires rs(p.dataShards, p.parityShards).Some?
    requires Mds(rs(p.dataShards, p.parityShards).value, p.dataShards, p.parityShards)
    ensures Codeword(rs, s, p).Ok?
    ensures var word := Codeword(rs, s, p).value;
            && |word| == p.Total() && SameLengths(word, DivCeil(|s.ciphertext|, p.dataShards))
            && DivCeil(|s.ciphertext|, p.dataShards) > 0
            && word[..p.dataShards] == DataShards(s.ciphertext, p.dataShards, DivCeil(|s.ciphertext|, p.dataShards))
    ensures forall slots :: PartOf(slots, Codeword(rs, s, p).value) && |Present(slots)| >= p.dataShards ==>
              rs(p.dataShards, p.parityShards).value.rebuild(slots) == Some(Codeword(rs, s, p).value)
  {
    hide DataShards, DivCeil, PartOf, Present;
    var length := DivCeil(|s.ciphertext|, p.dataShards);
    LayoutFits(|s.ciphertext|, p.dataShards);
    var data := DataShards(s.ciphertext, p.dataShards, length);
    assert |data| == p.dataShards && SameLengths(data, length);
    var word := Codeword(rs, s, p).value;
    var parity := rs(p.dataShards, p.parityShards).value.encode(data).value;
    assert SameLengths(parity, length);
    assert word == data + parity;
    assert forall x :: x in word ==> x in data || x in parity;
  }

  /** What reconstruction and repair take from the Reed-Solomon library. */
  ghost predicate LawfulCode(rs: ReedSolomon, s: Segment, p: StoragePolicy) {
    && s.ciphertext != [] && p.dataShards > 0
    && rs(p.dataShards, p.parityShards).Some?
    && Mds(rs(p.dataShards, p.parityShards).value, p.dataShards, p.parityShards)
    && Codeword(rs, s, p).Ok?
  }

  lemma LawfulCodeword(rs: ReedSolomon, s: Segment, p: StoragePolicy)
    requires LawfulCode(rs, s, p)
    ensures Codeword(rs, s, p).Ok? && |Codeword(rs, s, p).value| == p.Total()
    ensures rs(p.dataShards, p.parityShards).Some? && p.dataShards > 0
  {
    hide Codeword, Mds, DivCeil;
    CodewordFacts(rs, s, p);
  }

  /** Reconstruction from any list of harmless shards, in any order, that holds at
      least `k` places of the codeword gives exactly the ciphertext. */
  lemma ReconstructExact(hash: Hash, rs: ReedSolomon, s: Segment, p: StoragePolicy, stored: seq<Shard>)
    requires LawfulCode(rs, s, p) && s.ciphertextLen == |s.ciphertext|
    requires forall x :: x in stored ==> Harmless(hash, s, Codeword(rs, s, p).value, x)
    ensures |GenuinePlaces(hash, s, Codeword(rs, s, p).value, stored)| >= p.dataShards ==>
            Reconstruct(hash, rs, s, p, stored) == Ok(s.ciphertext)
    ensures var places := |GenuinePlaces(hash, s, Codeword(rs, s, p).value, stored)|;
            places < p.dataShards ==>
            Reconstruct(hash, rs, s, p, stored) == Err(NotEnoughShards(if |stored| < p.dataShards then |stored| else places, p.dataShards))
  {
    hide Harmless, GenuinePlaces, Codeword, Mds, FillSlots, Present, PartOf, DataShards, DivCeil, Flatten;
    var word := Codeword(rs, s, p).value;
    CodewordFacts(rs, s, p);
    FillSlotsHarmless(hash, s, word, stored);
    var places := GenuinePlaces(hash, s, word, stored);
    FlattenData(s.ciphertext, p.dataShards);
    PlacesAtMostStored(hash, s, word, stored);
  }

  lemma {:induction false} FillSlotsRefuses(hash: Hash, s: Segment, n: nat, stored: seq<Shard>, i: nat)
    requires i < |stored| && stored[i].index >= n && forall j :: 0 <= j < i ==> stored[j].index < n
    ensures FillSlots(hash, s, n, stored) == Err(InvalidShardIndex(stored[i].index))
  {
    hide Accepts;
    if i < |stored| - 1 {
      FillSlotsRefuses(hash, s, n, stored[..|stored| - 1], i);
    } else {
      FillSlotsInRange(hash, s, n, stored[..i]);
    }
  }

  lemma {:induction false} FillSlotsInRange(hash: Hash, s: Segment, n: nat, stored: seq<Shard>)
    requires forall x :: x in stored ==> x.index < n
    ensures FillSlots(hash, s, n, stored).Ok?
  {
    hide Accepts;
    if stored != [] { FillSlotsInRange(hash, s, n, stored[..|stored| - 1]); }
  }

  /** Among at least `k` shards, the first one out of range is an error, whatever the
      others are. */
  lemma OutOfRangeRefused(hash: Hash, rs: ReedSolomon, s: Segment, p: StoragePolicy, stored: seq<Shard>, i: nat)
    requires |stored| >= p.dataShards && rs(p.dataShards, p.parityShards).Some?
    requires i < |stored| && stored[i].index >= p.dataShards + p.parityShards
    requires forall j :: 0 <= j < i ==> stored[j].index < p.dataShards + p.parityShards
    ensures Reconstruct(hash, rs, s, p, stored) == Err(InvalidShardIndex(stored[i].index))
  {
    hide FillSlots, Present, Flatten;
    FillSlotsRefuses(hash, s, p.Total(), stored, i);
  }

  lemma {:induction false} PlacesAtMostStored(hash: Hash, s: Segment, word: seq<Bytes>, stored: seq<Shard>)
    ensures |GenuinePlaces(hash, s, word, stored)| <= |stored|
  {
    hide Accepts;
    if stored == [] {
      assert GenuinePlaces(hash, s, word, stored) == {};
    } else {
      var p, last := stored[..|stored| - 1], stored[|stored| - 1];
      PlacesAtMostStored(hash, s, word, p);
      assert forall x :: x in stored <==> x in p || x == last;
      var a, b := GenuinePlaces(hash, s, word, stored), GenuinePlaces(hash, s, word, p);
      assert a <= b + {last.index};
      SubsetSize(a, b + {last.index});
    }
  }

  /** A shard whose bytes were changed while its identifier was kept. */
  predicate Damaged(genuine: Shard, x: Shard) {
    x == genuine.(bytes := x.bytes)
  }

  lemma EqualShardCidEqualBytes(hash: Hash, s: Cid, index: nat, a: Bytes, b: Bytes)
    requires CollisionFree(hash, {CidTranscript(ShardKind, ShardTranscript(s, index, a)), CidTranscript(ShardKind, ShardTranscript(s, index, b))})
    requires ShardCid(hash, s, index, a) == ShardCid(hash, s, index, b)
    ensures a == b
  {
    NewCidInjective(hash, ShardKind, ShardTranscript(s, index, a), ShardKind, ShardTranscript(s, index, b));
    ShardSameIndex(s, index, a, b);
  }

  lemma ShardSameIndex(s: Cid, index: nat, a: Bytes, b: Bytes)
    requires ShardTranscript(s, index, a) == ShardTranscript(s, index, b)
    ensures a == b
  {
    hide Be;
    var x, y := Be(|a|, 8) + a, Be(|b|, 8) + b;
    LeadCancel(Text.Ascii("gitmesh.v0.shard"), s.digest + (Be(index, 8) + x), s.digest + (Be(index, 8) + y));
    LeadCancel(s.digest, Be(index, 8) + x, Be(index, 8) + y);
    LeadCancel(Be(index, 8), x, y);
    ConcatCancel(Be(|a|, 8), a, Be(|b|, 8), b);
  }

  /** A damaged shard, and a shard of another segment, are harmless. */
  lemma DamagedHarmless(hash: Hash, s: Segment, p: StoragePolicy, word: seq<Bytes>, index: nat, x: Shard)
    requires index < |word| && Damaged(MakeShard(hash, s, p, index, word[index]), x)
    requires CollisionFree(hash, {CidTranscript(ShardKind, ShardTranscript(s.cid, index, word[index])),
                                  CidTranscript(ShardKind, ShardTranscript(s.cid, index, x.bytes))})
    ensures Harmless(hash, s, word, x)
    ensures Accepts(hash, s, x) <==> x.bytes == word[index]
  {
    hide ShardCid;
    if Accepts(hash, s, x) {
      EqualShardCidEqualBytes(hash, s.cid, index, word[index], x.bytes);
    }
  }

  // ------------------------------------------------- shared by the repairs

  datatype Status = Verified | Missing | Corrupt

  /** `verify_shard`: the shard is checked against its own identifier. */
  predicate VerifyShard(hash: Hash, s: Segment, p: StoragePolicy, shard: Shard) {
    && shard.segmentCid == s.cid && shard.count == p.Total() && shard.dataShards == p.dataShards
    && shard.index < p.Total() && shard.cid == ShardCid(hash, s.cid, shard.index, shard.bytes)
  }

  /** `Vec::resize` with zeros. */
  function Resize(b: Bytes, length: nat): Bytes {
    if |b| >= length then b[..length] else b + seq(length - |b|, _ => 0)
  }
}
