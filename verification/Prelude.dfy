/** Vocabulary shared by every module: bytes, machine words, results, and the
    few sequence operations the GitMesh crates take from Rust's standard library. */
module Prelude {

  type byte = x: int | 0 <= x < 256
  type Bytes = seq<byte>

  const TWO_TO_64: int := 0x1_0000_0000_0000_0000
  const TWO_TO_32: int := 0x1_0000_0000

  type u64 = x: int | 0 <= x < TWO_TO_64

  datatype Option<+T> = None | Some(value: T)

  datatype Result<+T, +E> = Ok(value: T) | Err(error: E) {
    predicate IsFailure() { Err? }

    function PropagateFailure<U>(): Result<U, E>
      requires Err?
    {
      Err(error)
    }

    function Extract(): T
      requires Ok?
    {
      value
    }
  }

  // ---------------------------------------------------------------- powers

  function Pow(b: nat, n: nat): nat {
    if n == 0 then 1 else b * Pow(b, n - 1)
  }

  lemma {:induction false} PowPositive(b: nat, n: nat)
    requires b > 0
    ensures Pow(b, n) > 0
  {
    if n > 0 { PowPositive(b, n - 1); }
  }

  lemma {:induction false} PowAdd(b: nat, m: nat, n: nat)
    ensures Pow(b, m + n) == Pow(b, m) * Pow(b, n)
  {
    if m > 0 {
      PowAdd(b, m - 1, n);
      assert Pow(b, m + n) == b * (Pow(b, m - 1) * Pow(b, n)) == (b * Pow(b, m - 1)) * Pow(b, n);
    }
  }

  // ---------------------------------------------------------------- search

  /** `iter().position(..)`: the first index of `x`, or the length when absent. */
  function IndexOf<T(==)>(s: seq<T>, x: T): (i: nat)
    ensures i <= |s|
  {
    if s == [] then 0 else if s[0] == x then 0 else IndexOf(s[1..], x) + 1
  }

  lemma {:induction false} IndexOfFirst<T>(s: seq<T>, x: T)
    ensures var i := IndexOf(s, x);
            && x !in s[..i] && (i < |s| ==> s[i] == x) && (i == |s| <==> x !in s)
  {
    if s != [] && s[0] != x {
      IndexOfFirst(s[1..], x);
      var i := IndexOf(s, x);
      assert s[..i] == [s[0]] + s[1..][..i - 1];
    }
  }

  lemma IndexOfUnique<T>(s: seq<T>, x: T, i: nat)
    requires i < |s| && s[i] == x && x !in s[..i]
    ensures IndexOf(s, x) == i
  {
    var j := IndexOf(s, x);
    IndexOfFirst(s, x);
    assert forall k :: 0 <= k < i ==> s[k] in s[..i];
    assert forall k :: 0 <= k < j ==> s[k] in s[..j];
  }

  lemma IndexOfAfter<T>(a: seq<T>, x: T, b: seq<T>)
    requires x !in a
    ensures IndexOf(a + [x] + b, x) == |a|
  {
    var s := a + [x] + b;
    assert s[..|a|] == a;
    IndexOfUnique(s, x, |a|);
  }

  /** A mark that does not occur before: where it is, and what it separates. */
  lemma MarkSplits<T>(p: seq<T>, a: seq<T>, x: T, b: seq<T>)
    requires x !in a && p == a + [x] + b
    ensures IndexOf(p, x) == |a| && p[..|a|] == a && p[|a| + 1..] == b
  {
    hide IndexOf;
    IndexOfAfter(a, x, b);
  }

  // ------------------------------------------------------- split and join

  /** `split(sep)`: never empty, one more piece than there are separators. */
  function Split<T(==)>(s: seq<T>, sep: T): (parts: seq<seq<T>>)
    ensures |parts| >= 1
  {
    if s == [] then [[]]
    else
      var rest := Split(s[1..], sep);
      if s[0] == sep then [[]] + rest else [[s[0]] + rest[0]] + rest[1..]
  }

  function Join<T>(parts: seq<seq<T>>, sep: T): seq<T> {
    if parts == [] then [] else if |parts| == 1 then parts[0] else parts[0] + [sep] + Join(parts[1..], sep)
  }

  lemma {:induction false} SplitSingle<T>(p: seq<T>, sep: T)
    requires sep !in p
    ensures Split(p, sep) == [p]
  {
    if p != [] {
      SplitSingle(p[1..], sep);
      assert p == [p[0]] + p[1..];
    }
  }

  lemma {:induction false} SplitCons<T>(p: seq<T>, sep: T, t: seq<T>)
    requires sep !in p
    ensures Split(p + [sep] + t, sep) == [p] + Split(t, sep)
  {
    var s := p + [sep] + t;
    if p == [] {
      assert s[1..] == t;
    } else {
      assert s[1..] == p[1..] + [sep] + t;
      SplitCons(p[1..], sep, t);
      assert p == [p[0]] + p[1..];
    }
  }

  /** Splitting what was joined gives back the pieces. */
  lemma {:induction false} SplitJoin<T>(parts: seq<seq<T>>, sep: T)
    requires |parts| >= 1
    requires forall p :: p in parts ==> sep !in p
    ensures Split(Join(parts, sep), sep) == parts
  {
    if |parts| == 1 {
      SplitSingle(parts[0], sep);
    } else {
      SplitJoin(parts[1..], sep);
      SplitCons(parts[0], sep, Join(parts[1..], sep));
      assert parts == [parts[0]] + parts[1..];
    }
  }

  lemma {:induction false} JoinLacks<T>(parts: seq<seq<T>>, sep: T, x: T)
    requires x != sep
    requires forall p :: p in parts ==> x !in p
    ensures x !in Join(parts, sep)
  {
    if |parts| > 1 {
      JoinLacks(parts[1..], sep, x);
    }
  }

  /** Text up to the first separator is determined by the whole. */
  lemma SeparatorCancel<T>(a: seq<T>, x: seq<T>, b: seq<T>, y: seq<T>, sep: T)
    requires sep !in a && sep !in b
    requires a + [sep] + x == b + [sep] + y
    ensures a == b && x == y
  {
    IndexOfAfter(a, sep, x);
    IndexOfAfter(b, sep, y);
    assert a == (a + [sep] + x)[..|a|];
    assert b == (b + [sep] + y)[..|b|];
    assert x == (a + [sep] + x)[|a| + 1..];
    assert y == (b + [sep] + y)[|b| + 1..];
  }

  lemma ConcatCancel<T>(a: seq<T>, x: seq<T>, b: seq<T>, y: seq<T>)
    requires |a| == |b|
    requires a + x == b + y
    ensures a == b && x == y
  {
    assert a == (a + x)[..|a|];
    assert b == (b + y)[..|b|];
    assert x == (a + x)[|a|..];
    assert y == (b + y)[|b|..];
  }

  // ---------------------------------------------------------------- lines

  /** `str::lines`: newline-terminated pieces, a carriage return before the
      newline dropped; a last unterminated piece is kept as it is. */
  function Lines(t: string): seq<string>
    decreases |t|
  {
    if t == [] then []
    else
      var i := IndexOf(t, '\n');
      if i == |t| then [t] else [StripCr(t[..i])] + Lines(t[i + 1..])
  }

  function StripCr(line: string): string {
    if line != [] && line[|line| - 1] == '\r' then line[..|line| - 1] else line
  }

  /** A line ends at its newline, without a carriage return before it; what is left
      at the end without one is a line too. */
  lemma LinesStep(line: string, rest: string)
    requires '\n' !in line
    ensures line == [] || line[|line| - 1] != '\r' ==> Lines(line + ['\n'] + rest) == [line] + Lines(rest)
    ensures Lines(line + ['\r', '\n'] + rest) == [line] + Lines(rest)
    ensures Lines(line) == if line == [] then [] else [line]
  {
    hide IndexOf;
    IndexOfAfter(line, '\n', rest);
    var crlf := line + ['\r'];
    assert line + ['\r', '\n'] + rest == crlf + ['\n'] + rest;
    IndexOfAfter(crlf, '\n', rest);
    assert (line + ['\n'] + rest)[|line| + 1..] == rest && (crlf + ['\n'] + rest)[|crlf| + 1..] == rest;
    assert (line + ['\n'] + rest)[..|line|] == line && (crlf + ['\n'] + rest)[..|crlf|] == crlf;
    assert crlf[..|line|] == line;
    IndexOfFirst(line, '\n');
  }

  /** Every line followed by its newline. */
  function Unlines(lines: seq<string>): string {
    if lines == [] then [] else lines[0] + "\n" + Unlines(lines[1..])
  }

  predicate SingleLine(line: string) {
    '\n' !in line && '\r' !in line
  }

  lemma {:induction false} LinesUnlines(lines: seq<string>)
    requires forall l :: l in lines ==> SingleLine(l)
    ensures Lines(Unlines(lines)) == lines
  {
    if lines != [] {
      var rest := Unlines(lines[1..]);
      var t := lines[0] + ['\n'] + rest;
      assert Unlines(lines) == t;
      assert SingleLine(lines[0]);
      IndexOfAfter(lines[0], '\n', rest);
      assert t[..|lines[0]|] == lines[0];
      assert t[|lines[0]| + 1..] == rest;
      LinesUnlines(lines[1..]);
    }
  }

  lemma {:induction false} UnlinesAppend(a: seq<string>, b: seq<string>)
    ensures Unlines(a + b) == Unlines(a) + Unlines(b)
  {
    if a == [] {
      assert a + b == b;
    } else {
      assert (a + b)[1..] == a[1..] + b;
      UnlinesAppend(a[1..], b);
    }
  }

  /** Unicode White_Space, the characters `str::trim` removes. */
  predicate IsWhitespace(c: char) {
    var n := c as int;
    || 0x09 <= n <= 0x0D || n == 0x20 || n == 0x85 || n == 0xA0 || n == 0x1680
    || 0x2000 <= n <= 0x200A || n == 0x2028 || n == 0x2029 || n == 0x202F
    || n == 0x205F || n == 0x3000
  }

  /** `line.trim().is_empty()`. */
  predicate IsBlank(line: string) {
    forall c :: c in line ==> IsWhitespace(c)
  }

  // ------------------------------------------------------------- decimals

  predicate IsDigit(c: char) { '0' <= c <= '9' }

  function DigitChar(d: nat): (c: char)
    requires d < 10
    ensures IsDigit(c) && c as int == '0' as int + d
  {
    (('0' as int) + d) as char
  }

  /** `n.to_string()`. */
  function Dec(n: nat): (s: string)
    ensures |s| >= 1
    ensures forall c :: c in s ==> IsDigit(c)
  {
    if n < 10 then [DigitChar(n)] else Dec(n / 10) + [DigitChar(n % 10)]
  }

  function DecValue(s: string): nat
    requires forall c :: c in s ==> IsDigit(c)
  {
    if s == [] then 0
    else
      var last := s[|s| - 1];
      assert IsDigit(last);
      DecValue(s[..|s| - 1]) * 10 + (last as int - '0' as int)
  }

  /** `parse::<uN>()` with `bound` the first value out of range: one optional
      plus sign, at least one digit, no overflow.  The value never falls while
      digits are read, so the overflow check of each step is the check of the end. */
  function ParseUnsigned(s: string, bound: nat): (r: Option<nat>)
    ensures r.Some? ==> r.value < bound
  {
    var digits := if s != [] && s[0] == '+' then s[1..] else s;
    if digits == [] || exists c :: c in digits && !IsDigit(c) then None
    else if DecValue(digits) < bound then Some(DecValue(digits))
    else None
  }

  lemma {:induction false} DecValueOfDec(n: nat)
    ensures DecValue(Dec(n)) == n
  {
    if n < 10 {
      assert Dec(n)[..0] == [];
      assert DecValue(Dec(n)[..0]) == 0;
    } else {
      DecValueOfDec(n / 10);
      assert Dec(n)[..|Dec(n)| - 1] == Dec(n / 10);
    }
  }

  lemma ParseUnsignedOfDec(n: nat, bound: nat)
    requires n < bound
    ensures ParseUnsigned(Dec(n), bound) == Some(n)
  {
    DecValueOfDec(n);
    assert IsDigit(Dec(n)[0]);
  }

  function Zeros(k: nat): (z: string)
    ensures |z| == k
  {
    seq(k, _ => '0')
  }

  predicate AllDigits(s: string) {
    forall c :: c in s ==> IsDigit(c)
  }

  /** Digits stand for a number exactly when they are its decimal text behind zeros. */
  lemma {:induction false} DecValueExact(d: string, n: nat)
    requires d != [] && AllDigits(d)
    ensures DecValue(d) == n <==> |Dec(n)| <= |d| && d == Zeros(|d| - |Dec(n)|) + Dec(n)
    decreases |d|
  {
    var p, last := d[..|d| - 1], d[|d| - 1];
    assert d == p + [last] && IsDigit(last);
    if p != [] {
      DecValueExact(p, n / 10);
      if n < 10 {
        assert Dec(n / 10) == "0" && Dec(n) == [('0' as int + n) as char];
        assert Zeros(|p| - 1) + "0" == Zeros(|p|);
        assert d == Zeros(|p|) + Dec(n) <==> p == Zeros(|p|) && last == Dec(n)[0];
      } else {
        assert Dec(n) == Dec(n / 10) + [('0' as int + n % 10) as char];
        if |Dec(n)| <= |d| {
          var z := Zeros(|p| - |Dec(n / 10)|);
          assert z + Dec(n) == (z + Dec(n / 10)) + [('0' as int + n % 10) as char];
        }
      }
    } else {
      assert DecValue(p) == 0;
    }
  }

  /** A number is read exactly from its decimal text, behind any zeros and at most
      one plus sign, when it is in range. */
  lemma ParseUnsignedExact(s: string, bound: nat, n: nat)
    ensures ParseUnsigned(s, bound) == Some(n) <==>
            n < bound && exists k :: 0 <= k <= |s| && (s == Zeros(k) + Dec(n) || s == "+" + (Zeros(k) + Dec(n)))
  {
    hide Dec, DecValue, Zeros;
    var d := if s != [] && s[0] == '+' then s[1..] else s;
    if ParseUnsigned(s, bound) == Some(n) {
      DecValueExact(d, n);
      var k := |d| - |Dec(n)|;
      assert s == Zeros(k) + Dec(n) || s == "+" + (Zeros(k) + Dec(n));
    }
    if k :| 0 <= k <= |s| && (s == Zeros(k) + Dec(n) || s == "+" + (Zeros(k) + Dec(n))) && n < bound {
      ZerosAreDigits(k, n);
      assert d == Zeros(k) + Dec(n);
      DecValueExact(d, n);
    }
  }

  lemma ZerosAreDigits(k: nat, n: nat)
    ensures AllDigits(Zeros(k) + Dec(n)) && Zeros(k) + Dec(n) != [] && (Zeros(k) + Dec(n))[0] != '+'
  {
    var z := Zeros(k) + Dec(n);
    assert forall c :: c in z ==> IsDigit(c);
    assert z[0] in z;
  }

  lemma DecInjective(m: nat, n: nat)
    requires Dec(m) == Dec(n)
    ensures m == n
  {
    DecValueOfDec(m);
    DecValueOfDec(n);
  }

  // ------------------------------------------------- big-endian integers

  /** `to_be_bytes` of a `width`-byte integer. */
  function Be(n: nat, width: nat): (b: Bytes)
    ensures |b| == width
  {
    if width == 0 then [] else Be(n / 256, width - 1) + [n % 256]
  }

  function FromBe(b: Bytes): nat {
    if b == [] then 0 else FromBe(b[..|b| - 1]) * 256 + b[|b| - 1]
  }

  lemma {:induction false} FromBeOfBe(n: nat, width: nat)
    requires n < Pow(256, width)
    ensures FromBe(Be(n, width)) == n
  {
    if width > 0 {
      FromBeOfBe(n / 256, width - 1);
      assert Be(n, width)[..width - 1] == Be(n / 256, width - 1);
    }
  }

  lemma Pow256()
    ensures Pow(256, 2) == 0x1_0000 && Pow(256, 4) == TWO_TO_32 && Pow(256, 8) == TWO_TO_64
  {
    assert Pow(256, 1) == 256;
    assert Pow(256, 2) == 0x1_0000;
    PowAdd(256, 2, 2);
    PowAdd(256, 4, 4);
  }

  lemma U64BeInjective(a: u64, b: u64)
    requires Be(a, 8) == Be(b, 8)
    ensures a == b
  {
    Pow256();
    FromBeOfBe(a, 8);
    FromBeOfBe(b, 8);
  }

  /** A length-prefixed transcript field (`put_transcript_field`). */
  function Field(value: Bytes): Bytes {
    Be(|value|, 8) + value
  }

  lemma FieldCancel(a: Bytes, x: Bytes, b: Bytes, y: Bytes)
    requires |a| < TWO_TO_64 && |b| < TWO_TO_64
    requires Field(a) + x == Field(b) + y
    ensures a == b && x == y
  {
    assert Field(a) + x == Be(|a|, 8) + (a + x);
    assert Field(b) + y == Be(|b|, 8) + (b + y);
    ConcatCancel(Be(|a|, 8), a + x, Be(|b|, 8), b + y);
    U64BeInjective(|a|, |b|);
    ConcatCancel(a, x, b, y);
  }

  // ---------------------------------------------------- sizes and products

  lemma {:induction false} SubsetSize<T>(a: set<T>, b: set<T>)
    requires a <= b
    ensures |a| <= |b|
  {
    if a != {} {
      var x :| x in a;
      SubsetSize(a - {x}, b - {x});
    }
  }

  lemma {:induction false} MulGap(n: nat, d: nat, e: nat)
    requires d < e
    ensures n * d + n <= n * e
    decreases e
  {
    if d + 1 < e { MulGap(n, d, e - 1); }
  }

  // -------------------------------------------------------------- corruption

  /** The first byte xor 0xff, or one byte 0xff where there was none. */
  function Flip(b: Bytes): Bytes {
    if b == [] then [0xFF] else [0xFF - b[0]] + b[1..]
  }

  /** A string of consecutive characters is their range. */
  lemma CharRange(c: char, first: char, all: string)
    requires forall i :: 0 <= i < |all| ==> all[i] as int == first as int + i
    ensures c in all <==> first as int <= c as int < first as int + |all|
  {
    if first as int <= c as int < first as int + |all| { assert all[c as int - first as int] == c; }
  }
}
