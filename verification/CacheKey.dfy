// The cache key of a quote request: FNV-1a over its bytes, in 64-bit words.
module CacheKeys {
  import opened Domain

  const FNV_OFFSET: nat := 14695981039346656037
  const FNV_PRIME: nat := 1099511628211

  /** The inverse of the prime modulo 2^64; it exists because the prime is odd. */
  const FNV_INVERSE: nat := 14886173955864302971

  /** Exclusive or, bit by bit from the lowest. */
  function Xor(x: nat, y: nat): nat
    decreases x + y
  {
    if x + y == 0 then 0 else 2 * Xor(x / 2, y / 2) + (x + y) % 2
  }

  /** One step of the hash; the product wraps around. */
  function Step(h: nat, b: Byte): nat {
    Xor(h, b) * FNV_PRIME % U64
  }

  function Hash(h: nat, bytes: seq<Byte>): nat {
    if bytes == [] then h else Step(Hash(h, bytes[..|bytes| - 1]), bytes[|bytes| - 1])
  }

  // ---------- one step is a bijection on words ----------

  lemma ReducedOnce(x: nat, k: int)
    requires x < U64
    ensures (x + U64 * k) % U64 == x
  {
  }

  lemma TimesCancels(x: nat)
    requires x < U64
    ensures x * FNV_PRIME % U64 * FNV_INVERSE % U64 == x
    ensures x * FNV_INVERSE % U64 * FNV_PRIME % U64 == x
  {
    var c := FNV_PRIME * FNV_INVERSE / U64;
    assert FNV_PRIME * FNV_INVERSE == c * U64 + 1;
    var q, q' := x * FNV_PRIME / U64, x * FNV_INVERSE / U64;
    assert (x * FNV_PRIME - U64 * q) * FNV_INVERSE == x + U64 * (c * x - q * FNV_INVERSE);
    ReducedOnce(x, c * x - q * FNV_INVERSE);
    assert (x * FNV_INVERSE - U64 * q') * FNV_PRIME == x + U64 * (c * x - q' * FNV_PRIME);
    ReducedOnce(x, c * x - q' * FNV_PRIME);
  }

  lemma XorBits(x: nat, y: nat)
    ensures Xor(x, y) / 2 == Xor(x / 2, y / 2) && Xor(x, y) % 2 == (x + y) % 2
  {
  }

  lemma {:induction false} XorCommutes(x: nat, y: nat)
    ensures Xor(x, y) == Xor(y, x)
    decreases x + y
  {
    if x + y > 0 {
      XorCommutes(x / 2, y / 2);
    }
  }

  lemma {:induction false} XorZero(x: nat)
    ensures Xor(x, 0) == x
  {
    if x > 0 {
      XorZero(x / 2);
    }
  }

  lemma ParityCancels(x: nat, y: nat, z: nat, back: nat)
    requires z % 2 == (x + y) % 2 && back % 2 == (z + y) % 2 && back / 2 == x / 2
    ensures back == x
  {
  }

  lemma {:induction false} XorCancels(x: nat, y: nat)
    ensures Xor(Xor(x, y), y) == x
    decreases x + y
  {
    if x + y > 0 {
      var z := Xor(x, y);
      XorCancels(x / 2, y / 2);
      XorBits(x, y);
      XorBits(z, y);
      ParityCancels(x, y, z, Xor(z, y));
    } else {
      assert Xor(0, 0) == 0;
    }
  }

  function Pow2(n: nat): nat {
    if n == 0 then 1 else 2 * Pow2(n - 1)
  }

  lemma {:induction false} XorFits(x: nat, y: nat, n: nat)
    requires x < Pow2(n) && y < Pow2(n)
    ensures Xor(x, y) < Pow2(n)
  {
    if n > 0 {
      XorFits(x / 2, y / 2, n - 1);
    }
  }

  lemma {:induction false} PowAdds(a: nat, b: nat)
    ensures Pow2(a + b) == Pow2(a) * Pow2(b)
  {
    if b > 0 {
      PowAdds(a, b - 1);
    }
  }

  lemma WordIsPower()
    ensures Pow2(8) == 256 && Pow2(64) == U64
  {
    assert Pow2(4) == 16 by {
      assert Pow2(2) == 4;
    }
    PowAdds(4, 4);
    PowAdds(8, 8);
    PowAdds(16, 16);
    PowAdds(32, 32);
  }

  /** A word stays a word under exclusive or with a byte. */
  lemma XorIsWord(h: nat, b: Byte)
    requires h < U64
    ensures Xor(h, b) < U64
  {
    WordIsPower();
    XorFits(h, b, 64);
  }

  /** Undoes a step whose byte is known. */
  function Unstep(k: nat, b: Byte): nat {
    Xor(k * FNV_INVERSE % U64, b)
  }

  lemma StepIsBijective(h: nat, k: nat, b: Byte)
    requires h < U64 && k < U64
    ensures Unstep(Step(h, b), b) == h && Step(h, b) < U64
    ensures Step(Unstep(k, b), b) == k && Unstep(k, b) < U64
  {
    XorCancels(h, b);
    XorIsWord(h, b);
    TimesCancels(Xor(h, b));
    XorCancels(k * FNV_INVERSE % U64, b);
    XorIsWord(k * FNV_INVERSE % U64, b);
    TimesCancels(k);
  }

  lemma ByteShows(h: nat, b: Byte, c: Byte)
    requires h < U64 && Step(h, b) == Step(h, c)
    ensures b == c
  {
    XorIsWord(h, b);
    XorIsWord(h, c);
    TimesCancels(Xor(h, b));
    TimesCancels(Xor(h, c));
    XorCommutes(h, b);
    XorCommutes(h, c);
    XorCancels(b, h);
    XorCancels(c, h);
  }

  lemma {:induction false} HashIsWord(h: nat, bytes: seq<Byte>)
    requires h < U64
    ensures Hash(h, bytes) < U64
  {
  }

  /** Different states stay different over the same bytes. */
  lemma {:induction false} HashIsInjective(h: nat, k: nat, bytes: seq<Byte>)
    requires h < U64 && k < U64 && Hash(h, bytes) == Hash(k, bytes)
    ensures h == k
  {
    if bytes != [] {
      var n := |bytes| - 1;
      HashIsWord(h, bytes[..n]);
      HashIsWord(k, bytes[..n]);
      StepIsBijective(Hash(h, bytes[..n]), 0, bytes[n]);
      StepIsBijective(Hash(k, bytes[..n]), 0, bytes[n]);
      HashIsInjective(h, k, bytes[..n]);
    }
  }

  lemma {:induction false} HashAppends(h: nat, a: seq<Byte>, b: seq<Byte>)
    ensures Hash(h, a + b) == Hash(Hash(h, a), b)
  {
    if b == [] {
      assert a + b == a;
    } else {
      var n := |b| - 1;
      assert (a + b)[..|a| + n] == a + b[..n];
      HashAppends(h, a, b[..n]);
    }
  }

  /** The two strings have one length and differ in exactly one place. */
  ghost predicate OneApart(a: seq<Byte>, b: seq<Byte>, i: nat) {
    i < |a| == |b| && a[i] != b[i] && forall j :: 0 <= j < |a| && j != i ==> a[j] == b[j]
  }

  /** Changing exactly one byte always changes the hash. */
  lemma OneByteSeparates(h: nat, a: seq<Byte>, b: seq<Byte>, i: nat)
    requires OneApart(a, b, i) && h < U64
    ensures Hash(h, a) != Hash(h, b)
  {
    assert a == a[..i] + [a[i]] + a[i + 1..] && b == a[..i] + [b[i]] + a[i + 1..];
    HashAppends(h, a[..i] + [a[i]], a[i + 1..]);
    HashAppends(h, a[..i] + [b[i]], a[i + 1..]);
    var before := Hash(h, a[..i]);
    assert (a[..i] + [a[i]])[..i] == a[..i] && (a[..i] + [b[i]])[..i] == a[..i];
    HashIsWord(h, a[..i]);
    if Hash(h, a) == Hash(h, b) {
      HashIsInjective(Step(before, a[i]), Step(before, b[i]), a[i + 1..]);
      ByteShows(before, a[i], b[i]);
    }
  }

  // ---------- the bytes of a request ----------

  /** A quote request; the amount is a big integer that may be absent. */
  datatype Request = Request(input: PublicKey, output: PublicKey, amount: Option<int>, exactIn: bool)

  /** The low `n` bytes of an amount, least significant first. */
  function LowBytes(amount: nat, n: nat): seq<Byte> {
    if n == 0 then [] else [amount % 256] + LowBytes(amount / 256, n - 1)
  }

  /** The shortest big-endian form of a magnitude; empty for zero. */
  function BigBytes(magnitude: nat): seq<Byte> {
    if magnitude == 0 then [] else BigBytes(magnitude / 256) + [magnitude % 256]
  }

  predicate IsWord(amount: int) {
    0 <= amount < U64
  }

  function Magnitude(amount: int): nat {
    if amount < 0 then -amount else amount
  }

  /** The number whose base-256 digits these are, least significant first. */
  function Weighted(bytes: seq<Byte>): nat {
    if bytes == [] then 0 else bytes[0] + 256 * Weighted(bytes[1..])
  }

  /** The same, most significant first. */
  function WeightedBack(bytes: seq<Byte>): nat {
    if bytes == [] then 0 else 256 * WeightedBack(bytes[..|bytes| - 1]) + bytes[|bytes| - 1]
  }

  function AmountBytes(amount: Option<int>): seq<Byte> {
    match amount
    case None => []
    case Some(a) =>
      if IsWord(a) then LowBytes(a, 8) else BigBytes(Magnitude(a))
  }

  function Bytes(r: Request): seq<Byte> {
    r.input.bytes + r.output.bytes + AmountBytes(r.amount) + [if r.exactIn then 1 else 0]
  }

  /** 256 to the `n`. */
  function Place(n: nat): nat {
    if n == 0 then 1 else 256 * Place(n - 1)
  }

  lemma EightDigits()
    ensures Place(8) == U64
  {
    assert Place(4) == 0x1_0000_0000;
  }

  /** The bytes hashed for a number below 256^n hold all of it. */
  lemma {:induction false} LowBytesWeigh(x: nat, n: nat)
    requires x < Place(n)
    ensures |LowBytes(x, n)| == n && Weighted(LowBytes(x, n)) == x
  {
    if n > 0 {
      LowBytesWeigh(x / 256, n - 1);
      assert LowBytes(x, n)[1..] == LowBytes(x / 256, n - 1);
    }
  }

  /** Longer amounts are hashed whole too, the greatest digit first and without leading zeros. */
  lemma {:induction false} BigBytesWeigh(x: nat)
    ensures WeightedBack(BigBytes(x)) == x && (x > 0 ==> BigBytes(x) != [] && BigBytes(x)[0] != 0)
  {
    if x > 0 {
      BigBytesWeigh(x / 256);
      assert BigBytes(x)[..|BigBytes(x)| - 1] == BigBytes(x / 256);
    }
  }

  lemma {:induction false} BigBytesLong(x: nat, n: nat)
    requires x >= Place(n)
    ensures |BigBytes(x)| > n
  {
    if n > 0 {
      BigBytesLong(x / 256, n - 1);
    }
  }

  predicate NonNegative(amount: Option<int>) {
    amount.Some? ==> amount.value >= 0
  }

  /** Amounts that are not negative are hashed as different bytes: nothing of them is lost. */
  lemma AmountsShow(a: Option<int>, b: Option<int>)
    requires NonNegative(a) && NonNegative(b) && AmountBytes(a) == AmountBytes(b)
    ensures a == b
  {
    EightDigits();
    AmountLength(a);
    AmountLength(b);
    if a.Some? && IsWord(a.value) {
      LowBytesWeigh(a.value, 8);
      LowBytesWeigh(b.value, 8);
    } else if a.Some? {
      BigBytesWeigh(a.value);
      BigBytesWeigh(b.value);
    }
  }

  /** The number of bytes tells an absent amount, a word and a longer amount apart. */
  lemma AmountLength(a: Option<int>)
    requires NonNegative(a)
    ensures a.None? ==> |AmountBytes(a)| == 0
    ensures a.Some? && IsWord(a.value) ==> |AmountBytes(a)| == 8
    ensures a.Some? && !IsWord(a.value) ==> |AmountBytes(a)| > 8
  {
    EightDigits();
    if a.Some? && IsWord(a.value) {
      LowBytesWeigh(a.value, 8);
    } else if a.Some? {
      BigBytesLong(a.value, 8);
    }
  }

  /** A request between keys of 32 bytes, for an amount that is not negative. */
  predicate Plain(r: Request) {
    |r.input.bytes| == 32 && |r.output.bytes| == 32 && NonNegative(r.amount)
  }

  /** The bytes hashed determine the request; requests can share a key only through the hash itself. */
  lemma BytesDetermine(r: Request, r': Request)
    requires Plain(r) && Plain(r') && Bytes(r) == Bytes(r')
    ensures r == r'
  {
    var b, n := Bytes(r), |Bytes(r)| - 1;
    assert b[..32] == r.input.bytes && b[..32] == r'.input.bytes;
    assert b[32..64] == r.output.bytes && b[32..64] == r'.output.bytes;
    assert b[64..n] == AmountBytes(r.amount) && b[64..n] == AmountBytes(r'.amount);
    assert b[n] == if r.exactIn then 1 else 0;
    assert b[n] == if r'.exactIn then 1 else 0;
    AmountsShow(r.amount, r'.amount);
  }

  /** Beyond a word the sign is not hashed: an amount and its negation share every key. */
  lemma SignIsLost(r: Request, x: int)
    requires x >= U64
    ensures Bytes(r.(amount := Some(x))) == Bytes(r.(amount := Some(-x)))
  {
  }

  lemma LowBytesLength(x: nat, n: nat)
    ensures |LowBytes(x, n)| == n
  {
  }

  method HashOn(h0: nat, bytes: seq<Byte>) returns (h: nat)
    ensures h == Hash(h0, bytes)
  {
    h := h0;
    for i := 0 to |bytes|
      invariant h == Hash(h0, bytes[..i])
    {
      assert bytes[..i + 1][..i] == bytes[..i];
      h := Xor(h, bytes[i]);
      h := h * FNV_PRIME % U64;
    }
    assert bytes[..|bytes|] == bytes;
  }

  lemma HashOne(h: nat, b: Byte)
    ensures Hash(h, [b]) == Step(h, b)
  {
    assert [b][..0] == [];
  }

  method HashUint64(h0: nat, amount: nat) returns (h: nat)
    ensures h == Hash(h0, LowBytes(amount, 8))
  {
    h := h0;
    var rest := amount;
    for i := 0 to 8
      invariant Hash(h, LowBytes(rest, 8 - i)) == Hash(h0, LowBytes(amount, 8))
    {
      HashAppends(h, [rest % 256], LowBytes(rest / 256, 7 - i));
      HashOne(h, rest % 256);
      h := Xor(h, rest % 256);
      h := h * FNV_PRIME % U64;
      rest := rest / 256;
    }
  }

  lemma HashParts(h: nat, r: Request)
    ensures var flag := if r.exactIn then 1 else 0;
            Hash(h, Bytes(r)) == Step(Hash(Hash(Hash(h, r.input.bytes), r.output.bytes), AmountBytes(r.amount)), flag)
  {
    var mints, flag: Byte := r.input.bytes + r.output.bytes, if r.exactIn then 1 else 0;
    HashAppends(h, r.input.bytes, r.output.bytes);
    HashAppends(h, mints, AmountBytes(r.amount));
    HashAppends(h, mints + AmountBytes(r.amount), [flag]);
    HashOne(Hash(h, mints + AmountBytes(r.amount)), flag);
  }

  /** The inlined hash: both mints, the amount, and the exact-in flag. */
  method MakeKey(r: Request) returns (key: nat)
    ensures key == Hash(FNV_OFFSET, Bytes(r))
  {
    var h := FNV_OFFSET;
    h := HashOn(h, r.input.bytes);
    h := HashOn(h, r.output.bytes);
    if r.amount.Some? && IsWord(r.amount.value) {
      h := HashUint64(h, r.amount.value);
    } else if r.amount.Some? {
      h := HashOn(h, BigBytes(Magnitude(r.amount.value)));
    }
    HashParts(FNV_OFFSET, r);
    XorZero(h);
    if r.exactIn {
      h := Xor(h, 1);
    }
    key := h * FNV_PRIME % U64;
  }

  // ---------- near-identical requests have different keys ----------

  /** In base 256 the numbers differ in the digit of weight 256^k and in no other. */
  predicate OneDigitApart(x: nat, y: nat, k: nat) {
    if k == 0 then x != y && x / 256 == y / 256
    else x % 256 == y % 256 && OneDigitApart(x / 256, y / 256, k - 1)
  }

  /** The number is at least 256^k. */
  predicate HasDigit(x: nat, k: nat) {
    if k == 0 then x > 0 else HasDigit(x / 256, k - 1)
  }

  /**
   * One base-256 digit of the amount is replaced by another: of two words, or
   * of the magnitudes of two amounts that are no words and equally long.
   */
  predicate AmountsApart(a: int, a': int, k: nat) {
    || (IsWord(a) && IsWord(a') && k < 8 && OneDigitApart(a, a', k))
    || (!IsWord(a) && !IsWord(a') && OneDigitApart(Magnitude(a), Magnitude(a'), k)
        && HasDigit(Magnitude(a), k) && HasDigit(Magnitude(a'), k))
  }

  /** The requests agree except in one byte of one mint, one digit of the amount, or the flag. */
  ghost predicate Near(r: Request, r': Request, i: nat) {
    || (r' == r.(input := r'.input) && OneApart(r.input.bytes, r'.input.bytes, i))
    || (r' == r.(output := r'.output) && OneApart(r.output.bytes, r'.output.bytes, i))
    || (r' == r.(amount := r'.amount) && r.amount.Some? && r'.amount.Some?
        && AmountsApart(r.amount.value, r'.amount.value, i))
    || r' == r.(exactIn := !r.exactIn)
  }

  lemma {:induction false} LowBytesApart(x: nat, y: nat, n: nat, k: nat)
    requires k < n && OneDigitApart(x, y, k)
    ensures OneApart(LowBytes(x, n), LowBytes(y, n), k)
  {
    if k > 0 {
      LowBytesApart(x / 256, y / 256, n - 1, k - 1);
    } else {
      LowBytesLength(x / 256, n - 1);
    }
  }

  lemma {:induction false} BigBytesApart(x: nat, y: nat, k: nat)
    requires OneDigitApart(x, y, k) && HasDigit(x, k) && HasDigit(y, k)
    ensures k < |BigBytes(x)| && OneApart(BigBytes(x), BigBytes(y), |BigBytes(x)| - 1 - k)
  {
    if k > 0 {
      BigBytesApart(x / 256, y / 256, k - 1);
    }
  }

  lemma WithinSeparates(h: nat, before: seq<Byte>, a: seq<Byte>, b: seq<Byte>, after: seq<Byte>, i: nat)
    requires OneApart(a, b, i) && h < U64
    ensures Hash(h, before + a + after) != Hash(h, before + b + after)
  {
    var x, y := before + a + after, before + b + after;
    forall j | 0 <= j < |x| && j != |before| + i ensures x[j] == y[j] {
      if |before| <= j < |before| + |a| {
        assert x[j] == a[j - |before|] && y[j] == b[j - |before|];
      }
    }
    OneByteSeparates(h, x, y, |before| + i);
  }

  lemma Regroup(a: seq<Byte>, b: seq<Byte>, c: seq<Byte>, d: seq<Byte>)
    ensures a + b + c + d == [] + a + (b + c + d)
  {
  }

  lemma InputByteSeparates(r: Request, r': Request, i: nat)
    requires r' == r.(input := r'.input) && OneApart(r.input.bytes, r'.input.bytes, i)
    ensures Hash(FNV_OFFSET, Bytes(r)) != Hash(FNV_OFFSET, Bytes(r'))
  {
    var flag: seq<Byte> := [if r.exactIn then 1 else 0];
    Regroup(r.input.bytes, r.output.bytes, AmountBytes(r.amount), flag);
    Regroup(r'.input.bytes, r.output.bytes, AmountBytes(r.amount), flag);
    WithinSeparates(FNV_OFFSET, [], r.input.bytes, r'.input.bytes, r.output.bytes + AmountBytes(r.amount) + flag, i);
  }

  lemma OutputByteSeparates(r: Request, r': Request, i: nat)
    requires r' == r.(output := r'.output) && OneApart(r.output.bytes, r'.output.bytes, i)
    ensures Hash(FNV_OFFSET, Bytes(r)) != Hash(FNV_OFFSET, Bytes(r'))
  {
    var rest: seq<Byte> := AmountBytes(r.amount) + [if r.exactIn then 1 else 0];
    WithinSeparates(FNV_OFFSET, r.input.bytes, r.output.bytes, r'.output.bytes, rest, i);
    assert Bytes(r) == r.input.bytes + r.output.bytes + rest;
    assert Bytes(r') == r.input.bytes + r'.output.bytes + rest;
  }

  lemma FlagSeparates(r: Request, r': Request)
    requires r' == r.(exactIn := !r.exactIn)
    ensures Hash(FNV_OFFSET, Bytes(r)) != Hash(FNV_OFFSET, Bytes(r'))
  {
    var front := r.input.bytes + r.output.bytes + AmountBytes(r.amount);
    var flag: seq<Byte>, flag': seq<Byte> := [if r.exactIn then 1 else 0], [if r'.exactIn then 1 else 0];
    assert OneApart(flag, flag', 0);
    WithinSeparates(FNV_OFFSET, front, flag, flag', [], 0);
    assert front + flag + [] == Bytes(r) && front + flag' + [] == Bytes(r');
  }

  lemma AmountSeparates(r: Request, r': Request, k: nat)
    requires r' == r.(amount := r'.amount) && r.amount.Some? && r'.amount.Some?
    requires AmountsApart(r.amount.value, r'.amount.value, k)
    ensures Hash(FNV_OFFSET, Bytes(r)) != Hash(FNV_OFFSET, Bytes(r'))
  {
    var a, a' := r.amount.value, r'.amount.value;
    var bytes, bytes' := AmountBytes(r.amount), AmountBytes(r'.amount);
    var i: nat := k;
    if IsWord(a) {
      LowBytesApart(a, a', 8, k);
    } else {
      BigBytesApart(Magnitude(a), Magnitude(a'), k);
      i := |bytes| - 1 - k;
    }
    WithinSeparates(FNV_OFFSET, r.input.bytes + r.output.bytes, bytes, bytes', [if r.exactIn then 1 else 0], i);
  }

  /** Such requests never share a cache key. */
  lemma NearRequestsSeparate(r: Request, r': Request, i: nat)
    requires Near(r, r', i)
    ensures Hash(FNV_OFFSET, Bytes(r)) != Hash(FNV_OFFSET, Bytes(r'))
  {
    if r' == r.(input := r'.input) && OneApart(r.input.bytes, r'.input.bytes, i) {
      InputByteSeparates(r, r', i);
    } else if r' == r.(output := r'.output) && OneApart(r.output.bytes, r'.output.bytes, i) {
      OutputByteSeparates(r, r', i);
    } else if r' == r.(exactIn := !r.exactIn) {
      FlagSeparates(r, r');
    } else {
      AmountSeparates(r, r', i);
    }
  }
}
