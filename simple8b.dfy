/** Simple8b: packs runs of small non-negative integers into 64-bit words.
    A word holds a 4-bit selector in bits 63..60 and, for selector s,
    INTEGERS_CODED[s] slots of BPI[s] bits each below it, slot 0 highest.

    A `u64` is modelled as an `int` in [0, 2^64). The three operators `pack`
    uses are spelled out on that range: `Shl` (`<<`, bits above 63 are lost),
    `Or` (bitwise `|`, by recursion over the bits) and, for reading a slot
    back, division by a power of two (`>>`) and remainder (`& mask`). */
module Simple8b {

  const TWO_60: int := 0x1000_0000_0000_0000
  const TWO_64: int := 0x1_0000_0000_0000_0000

  /** Rust's `u64`. */
  type uint64 = x: int | 0 <= x < TWO_64
  /** Rust's `u8`. */
  type uint8 = x: int | 0 <= x < 256

  // ---------------------------------------------------------------------------
  // The selector table
  // ---------------------------------------------------------------------------

  const SELECTOR_VALUE: seq<uint8> := [0, 1, 2, 3, 4, 5, 6, 7, 8, 9, 10, 11, 12, 13, 14, 15]
  const INTEGERS_CODED: seq<uint8> := [240, 120, 60, 30, 20, 15, 12, 10, 8, 7, 6, 5, 4, 3, 2, 1]
  const BPI: seq<uint8> := [0, 0, 1, 2, 3, 4, 5, 6, 7, 8, 10, 12, 15, 20, 30, 60]

  /** Every mode fits in the 60 payload bits, so no shift in `pack` is negative;
      only the two all-ones modes have zero-width slots. */
  lemma TableInvariant()
    ensures |SELECTOR_VALUE| == |INTEGERS_CODED| == |BPI| == 16
    ensures forall s :: 0 <= s < 16 ==> SELECTOR_VALUE[s] == s
    ensures forall s :: 0 <= s < 16 ==> 1 <= INTEGERS_CODED[s] && INTEGERS_CODED[s] * BPI[s] <= 60
    ensures forall s :: 0 <= s < 16 ==> (BPI[s] == 0 <==> s < 2)
    ensures forall s :: 0 <= s < 16 ==> Top(BPI[s], INTEGERS_CODED[s]) >= 0
  {
    forall s | 0 <= s < 16
      ensures Top(BPI[s], INTEGERS_CODED[s]) >= 0
    {
      TopIsProduct(BPI[s], INTEGERS_CODED[s]);
    }
  }

  // ---------------------------------------------------------------------------
  // Powers of two and the arithmetic the slot layout rests on
  // ---------------------------------------------------------------------------

  function Pow2(k: nat): (r: nat)
    ensures r >= 1
  {
    if k == 0 then 1 else 2 * Pow2(k - 1)
  }

  lemma {:induction false} Pow2Add(a: nat, b: nat)
    ensures Pow2(a + b) == Pow2(a) * Pow2(b)
  {
    if b > 0 { Pow2Add(a, b - 1); }
  }

  lemma {:induction false} Pow2Mono(a: nat, b: nat)
    requires a <= b
    ensures Pow2(a) <= Pow2(b)
  {
    if a < b { Pow2Mono(a, b - 1); }
  }

  // Concrete powers, each from smaller ones, so that no proof has to unfold Pow2 far.
  lemma Pow2Of4() ensures Pow2(4) == 16 {}
  lemma Pow2Of8() ensures Pow2(8) == 256 { Pow2Of4(); Pow2Add(4, 4); }
  lemma Pow2Of10() ensures Pow2(10) == 1024 { Pow2Of8(); Pow2Add(8, 2); }
  lemma Pow2Of20() ensures Pow2(20) == 0x10_0000 { Pow2Of10(); Pow2Add(10, 10); }
  lemma Pow2Of30() ensures Pow2(30) == 0x4000_0000 { Pow2Of10(); Pow2Of20(); Pow2Add(20, 10); }

  lemma Pow2Constants()
    ensures Pow2(60) == TWO_60
    ensures Pow2(64) == TWO_64
  {
    Pow2Of4();
    Pow2Of30();
    Pow2Add(30, 30);
    Pow2Add(60, 4);
  }

  lemma MulAtLeast(a: int, d: int)
    requires a >= 1 && d > 0
    ensures a * d >= d
  {}

  lemma MulLe(a: int, b: int, c: int)
    requires a <= b && c >= 0
    ensures a * c <= b * c
  {}

  /** Quotient and remainder are fixed by any decomposition x == q * d + r with 0 <= r < d. */
  lemma DivModUnique(x: int, d: int, q: int, r: int)
    requires d > 0 && x == q * d + r && 0 <= r < d
    ensures x / d == q && x % d == r
  {
    var q0, r0 := x / d, x % d;
    assert x == q0 * d + r0;
    assert (q - q0) * d == r0 - r;
    if q > q0 { MulAtLeast(q - q0, d); }
    if q < q0 { MulAtLeast(q0 - q, d); }
  }

  lemma SmallMod(y: int, m: int)
    requires 0 <= y < m
    ensures y % m == y
  {
    DivModUnique(y, m, 0, y);
  }

  lemma Regroup(m: int, q: int, r: int, a: int, b: int)
    requires m == q * b + r
    ensures m * a == q * (a * b) + r * a
  {}

  lemma DivModBasics(x: int, d: int)
    requires d > 0
    ensures x == (x / d) * d + x % d && 0 <= x % d < d
  {}

  lemma NextMultiple(r: int, y: int, a: int, b: int)
    requires a > 0 && 0 <= r < b && 0 <= y < a
    ensures 0 <= r * a + y < a * b
  {
    MulLe(r + 1, b, a);
    assert (r + 1) * a == r * a + a;
    assert b * a == a * b;
  }

  lemma DivAddLowCore(x: int, y: int, a: int, b: int)
    requires a > 0 && b > 0 && x >= 0 && x % a == 0 && 0 <= y < a
    ensures (x + y) / (a * b) == x / (a * b)
  {
    var m := x / a;
    DivModBasics(x, a);
    var q, r := m / b, m % b;
    DivModBasics(m, b);
    Regroup(m, q, r, a, b);
    NextMultiple(r, y, a, b);
    MulAtLeast(a, b);
    var ab := a * b;
    assert x == q * ab + r * a;
    DivModUnique(x, ab, q, r * a);
    DivModUnique(x + y, ab, q, r * a + y);
  }

  /** Adding a value below 2^a to a multiple of 2^a changes no bit at or above bit a. */
  lemma DivAddLow(x: nat, y: nat, a: nat, t: nat)
    requires a <= t && x % Pow2(a) == 0 && y < Pow2(a)
    ensures (x + y) / Pow2(t) == x / Pow2(t)
  {
    Pow2Add(a, t - a);
    DivAddLowCore(x, y, Pow2(a), Pow2(t - a));
  }

  // ---------------------------------------------------------------------------
  // The u64 operators of `pack`
  // ---------------------------------------------------------------------------

  /** Rust's `x << s` on u64 for s < 64: bits moved past bit 63 are lost. */
  function Shl(x: uint64, s: nat): uint64
    requires s < 64
  {
    (x * Pow2(s)) % TWO_64
  }

  /** Bitwise OR of the lowest w bits of a and b. */
  function OrBits(a: nat, b: nat, w: nat): (r: nat)
    ensures r < Pow2(w)
  {
    if w == 0 then 0
    else 2 * OrBits(a / 2, b / 2, w - 1) + (if a % 2 == 1 || b % 2 == 1 then 1 else 0)
  }

  /** Rust's `a | b` on u64. */
  function Or(a: uint64, b: uint64): uint64
  {
    Pow2Constants();
    OrBits(a, b, 64)
  }

  lemma {:induction false} OrBitsZero(a: nat, w: nat)
    requires a < Pow2(w)
    ensures OrBits(a, 0, w) == a
  {
    if w > 0 { OrBitsZero(a / 2, w - 1); }
  }

  lemma HalfOfMultiple(a: nat, k: nat)
    requires k > 0 && a % Pow2(k) == 0
    ensures a % 2 == 0 && (a / 2) % Pow2(k - 1) == 0
  {
    var q := a / Pow2(k);
    assert a == q * Pow2(k);
    assert a == 2 * (q * Pow2(k - 1));
    DivModUnique(a / 2, Pow2(k - 1), q, 0);
  }

  /** OR of two values whose set bits are apart (a's all at or above bit k, b's all below) is their sum. */
  lemma {:induction false} OrDisjoint(a: nat, b: nat, k: nat, w: nat)
    requires k <= w && a < Pow2(w) && a % Pow2(k) == 0 && b < Pow2(k)
    ensures OrBits(a, b, w) == a + b
  {
    if k == 0 {
      OrBitsZero(a, w);
    } else {
      HalfOfMultiple(a, k);
      OrDisjoint(a / 2, b / 2, k - 1, w - 1);
    }
  }

  lemma MulLtPow(d: nat, a: nat, b: nat)
    requires d < Pow2(a)
    ensures 0 <= d * Pow2(b) < Pow2(a + b)
  {
    Pow2Add(a, b);
    MulLe(d + 1, Pow2(a), Pow2(b));
  }

  lemma ShlNoOverflow(x: uint64, s: nat, w: nat)
    requires x < Pow2(w) && s + w <= 64 && s < 64
    ensures Shl(x, s) == x * Pow2(s)
  {
    MulLtPow(x, w, s);
    Pow2Mono(w + s, 64);
    Pow2Constants();
    SmallMod(x * Pow2(s), TWO_64);
  }

  lemma OrSlot(p: uint64, d: uint64, bits: nat, t: nat)
    requires t + bits <= 60 && d < Pow2(bits) && p % Pow2(t + bits) == 0
    ensures Or(p, Shl(d, t)) == p + d * Pow2(t)
  {
    ShlNoOverflow(d, t, bits);
    MulLtPow(d, bits, t);
    Pow2Constants();
    OrDisjoint(p, d * Pow2(t), t + bits, 64);
  }

  // ---------------------------------------------------------------------------
  // can_pack
  // ---------------------------------------------------------------------------

  /** How many leading values `can_pack` inspects. The source compares
      `num_elements` with `len as u8`, that is len % 256, so whenever
      len % 256 <= num_elements it inspects the whole buffer. */
  function Inspected(len: nat, numElements: uint8): nat
  {
    if numElements < len % 256 then numElements else len
  }

  /** When `can_pack(data, num_elements, bits)` holds: enough values remain,
      and every inspected value fits in `bits` bits; with `bits == 0` an
      inspected value must also equal 1. */
  predicate Packable(data: seq<uint64>, numElements: uint8, bits: nat)
  {
    && numElements <= |data|
    && forall i :: 0 <= i < Inspected(|data|, numElements) ==>
         (bits == 0 ==> data[i] == 1) && data[i] < Pow2(bits)
  }

  lemma ShlOne(bits: nat)
    requires bits < 64
    ensures Shl(1, bits) == Pow2(bits)
  {
    Pow2Mono(bits, 64);
    Pow2Constants();
    if bits < 64 {
      Pow2Mono(bits, 63);
      Pow2Add(63, 1);
    }
    DivModUnique(Pow2(bits), TWO_64, 0, Pow2(bits));
  }

  method CanPack(data: seq<uint64>, numElements: uint8, bits: uint8) returns (ok: bool)
    requires bits < 64
    ensures ok == Packable(data, numElements, bits)
  {
    if |data| < numElements {
      return false;
    }
    var end := |data|;
    if numElements < end % 256 {
      end := numElements;
    }
    if bits == 0 {
      for i := 0 to end
        invariant forall j :: 0 <= j < i ==> data[j] == 1
      {
        if data[i] != 1 {
          return false;
        }
      }
    }
    ShlOne(bits);
    var maxValue := Shl(1, bits) - 1;
    for i := 0 to end
      invariant forall j :: 0 <= j < i ==> data[j] <= maxValue
    {
      if data[i] > maxValue {
        return false;
      }
    }
    return true;
  }

  /** Fewer remaining values than the mode's count never pack. */
  lemma CanPackNeedsEnough(data: seq<uint64>, numElements: uint8, bits: nat)
    requires |data| < numElements
    ensures !Packable(data, numElements, bits)
  {}

  /** The values inspected are the first `numElements`, or the whole buffer
      exactly when len % 256 <= numElements; either way they include the
      values that will be packed. */
  lemma InspectedPrefix(len: nat, numElements: uint8)
    requires numElements <= len
    ensures numElements <= Inspected(len, numElements) <= len
    ensures Inspected(len, numElements) == len <==> len % 256 <= numElements || numElements == len
    ensures Inspected(len, numElements) != len ==> Inspected(len, numElements) == numElements
  {}

  /** For non-zero widths: `can_pack` holds exactly when enough values remain
      and every inspected value is at most 2^bits - 1. */
  lemma CanPackWidth(data: seq<uint64>, numElements: uint8, bits: nat)
    requires bits > 0
    ensures Packable(data, numElements, bits) <==>
      numElements <= |data| &&
      forall i :: 0 <= i < Inspected(|data|, numElements) ==> data[i] <= Pow2(bits) - 1
  {}

  /** A packable mode fits each of the values it will pack. */
  lemma PackableFits(data: seq<uint64>, numElements: uint8, bits: nat)
    requires Packable(data, numElements, bits)
    ensures forall i :: 0 <= i < numElements ==> data[i] < Pow2(bits)
  {
    InspectedPrefix(|data|, numElements);
  }

  /** The all-ones modes (width 0) never pack anything: `(1 << 0) - 1` is 0,
      so an inspected value would have to be both 1 and at most 0. */
  lemma ZeroBitsNeverPack(data: seq<uint64>, numElements: uint8)
    requires numElements >= 1
    ensures !Packable(data, numElements, 0)
  {
    if numElements <= |data| {
      InspectedPrefix(|data|, numElements);
      assert !((0 == 0 ==> data[0] == 1) && data[0] < Pow2(0));
    }
  }

  /** The expected values of the source's `can_pack` tests. */
  lemma CanPackExamples()
    ensures Packable(seq(60, _ => 1), 60, 1)
    ensures !Packable(seq(60, _ => 1), 120, 0)
    ensures !Packable(seq(60, _ => 1), 240, 0)
    ensures !Packable(seq(30, _ => 2), 30, 1)
    ensures !Packable(seq(30, _ => 2), 60, 1)
    ensures Packable(seq(30, _ => 2), 30, 2)
    ensures !Packable(seq(30, _ => 2), 240, 0)
    ensures !Packable(seq(7, _ => 255), 30, 1)
    ensures !Packable(seq(7, _ => 255), 60, 1)
    ensures !Packable(seq(7, _ => 255), 30, 2)
    ensures Packable(seq(7, _ => 255), 7, 8)
    ensures !Packable(seq(7, _ => 255), 240, 0)
  {
    assert Pow2(1) == 2 && Pow2(2) == 4 && Pow2(8) == 256;
    var twos := seq(30, _ => 2);
    assert !(twos[0] < Pow2(1));
  }

  // ---------------------------------------------------------------------------
  // pack
  // ---------------------------------------------------------------------------

  /** Top(bits, k) is 60 - bits * k (TopIsProduct): the lowest bit of slot
      k - 1, and the shift `pack` applies to it. It is written as one
      subtraction per slot so that reasoning about neighbouring slots stays
      linear. */
  function Top(bits: nat, k: nat): (r: int)
    ensures r <= 60
  {
    if k == 0 then 60 else Top(bits, k - 1) - bits
  }

  lemma {:induction false} TopIsProduct(bits: nat, k: nat)
    ensures Top(bits, k) == 60 - bits * k
  {
    if k > 0 {
      TopIsProduct(bits, k - 1);
      assert bits * k == bits * (k - 1) + bits;
    }
  }

  /** Later slots sit lower in the word. */
  lemma {:induction false} TopMono(bits: nat, i: nat, k: nat)
    requires i <= k
    ensures Top(bits, k) <= Top(bits, i)
    decreases k - i
  {
    if i < k {
      TopMono(bits, i, k - 1);
    }
  }

  /** The word `pack(data, selector, k, bits)` builds: the selector shifted to
      bit 60, ORed with data[i] shifted to Top(bits, i + 1) for each i < k. */
  function PackedWord(data: seq<uint64>, selector: uint8, bits: nat, k: nat): uint64
    requires k <= |data| && Top(bits, k) >= 0
  {
    if k == 0 then Shl(selector, 60)
    else Or(PackedWord(data, selector, bits, k - 1), Shl(data[k - 1], Top(bits, k)))
  }

  /** `pack`. The source's `u8` arithmetic `60 - num_bits * (num + 1)` stays in
      range exactly when integersCoded * numBits <= 60, that is when
      Top(numBits, integersCoded) >= 0. */
  method Pack(data: seq<uint64>, selector: uint8, integersCoded: uint8, numBits: uint8) returns (packed: uint64)
    requires integersCoded <= |data|
    requires Top(numBits, integersCoded) >= 0
    ensures packed == PackedWord(data, selector, numBits, integersCoded)
  {
    packed := Shl(selector, 60);
    for num: nat := 0 to integersCoded
      invariant Top(numBits, num) >= 0
      invariant packed == PackedWord(data, selector, numBits, num)
    {
      TopMono(numBits, num + 1, integersCoded);
      TopIsProduct(numBits, num + 1);
      var shift: nat := 60 - numBits * (num + 1);
      packed := Or(packed, Shl(data[num], shift));
    }
  }

  /** `word >> 60`: the selector nibble. */
  function SelectorOf(word: uint64): (s: nat)
    ensures s < 16
  {
    Pow2Constants();
    word / Pow2(60)
  }

  /** `(word >> (60 - bits * (i + 1))) & ((1 << bits) - 1)`: slot i of a word with bits-wide slots. */
  function Slot(word: uint64, bits: nat, i: nat): nat
    requires Top(bits, i + 1) >= 0
  {
    (word / Pow2(Top(bits, i + 1))) % Pow2(bits)
  }

  /** One step of `pack`: when slot k - 1 fits and the bits below slot k - 2
      are still zero, ORing it in is adding data[k - 1] * 2^Top(bits, k). */
  lemma PackStep(data: seq<uint64>, selector: uint8, bits: nat, k: nat)
    requires 1 <= k <= |data| && Top(bits, k) >= 0
    requires data[k - 1] < Pow2(bits)
    requires PackedWord(data, selector, bits, k - 1) % Pow2(Top(bits, k - 1)) == 0
    ensures PackedWord(data, selector, bits, k) ==
      PackedWord(data, selector, bits, k - 1) + data[k - 1] * Pow2(Top(bits, k))
  {
    var p, t := PackedWord(data, selector, bits, k - 1), Top(bits, k);
    assert Top(bits, k - 1) == t + bits;
    OrSlot(p, data[k - 1], bits, t);
    assert PackedWord(data, selector, bits, k) == Or(p, Shl(data[k - 1], t));
  }

  lemma SlotArith(p: int, d: int, a: int, b: int)
    requires a > 0 && b > 0 && p >= 0 && p % (b * a) == 0 && 0 <= d < b
    ensures (p + d * a) % a == 0
    ensures ((p + d * a) / a) % b == d
  {
    var m := p / (b * a);
    DivModBasics(p, b * a);
    assert p == (m * b) * a;
    assert p + d * a == (m * b + d) * a;
    DivModUnique(p + d * a, a, m * b + d, 0);
    DivModUnique(m * b + d, b, m, d);
  }

  /** The first k slots of `word` read back as data[..k]. */
  ghost predicate SlotsMatch(word: uint64, data: seq<uint64>, bits: nat, k: nat)
    requires k <= |data| && Top(bits, k) >= 0
  {
    forall i :: 0 <= i < k ==> (TopMono(bits, i + 1, k); Slot(word, bits, i) == data[i])
  }

  /** The layout of a word holding its selector and k slots of `bits` bits:
      the selector reads back from bits 63..60, each slot i < k reads back
      data[i], and the bits below slot k - 1 are still zero. */
  ghost predicate Layout(word: uint64, data: seq<uint64>, selector: nat, bits: nat, k: nat)
    requires k <= |data| && Top(bits, k) >= 0
  {
    && word % Pow2(Top(bits, k)) == 0
    && SelectorOf(word) == selector
    && SlotsMatch(word, data, bits, k)
  }

  /** Adding a value below 2^a to a multiple of 2^a changes no bit at or above bit a. */
  lemma HighBitsKept(p: nat, y: nat, a: nat)
    requires p % Pow2(a) == 0 && y < Pow2(a)
    ensures forall t: nat {:trigger Pow2(t)} :: a <= t ==> (p + y) / Pow2(t) == p / Pow2(t)
  {
    forall t: nat | a <= t
      ensures (p + y) / Pow2(t) == p / Pow2(t)
    {
      DivAddLow(p, y, a, t);
    }
  }

  /** Adding a slot value d at bit t to a word whose bits below t + bits are zero. */
  lemma WordStep(p: nat, v: nat, d: nat, t: nat, bits: nat)
    requires p % Pow2(t + bits) == 0 && d < Pow2(bits)
    requires v == p + d * Pow2(t)
    ensures v % Pow2(t) == 0
    ensures (v / Pow2(t)) % Pow2(bits) == d
    ensures forall s: nat {:trigger Pow2(s)} :: t + bits <= s ==> v / Pow2(s) == p / Pow2(s)
  {
    Pow2Add(bits, t);
    assert Pow2(bits) * Pow2(t) == Pow2(t + bits);
    SlotArith(p, d, Pow2(t), Pow2(bits));
    MulLtPow(d, bits, t);
    HighBitsKept(p, d * Pow2(t), t + bits);
  }

  /** Slots that lie above the bits an addition can reach keep their values. */
  lemma SlotsStep(p: uint64, v: uint64, data: seq<uint64>, bits: nat, k: nat)
    requires 1 <= k <= |data| && Top(bits, k) >= 0
    requires SlotsMatch(p, data, bits, k - 1)
    requires forall s: nat {:trigger Pow2(s)} :: Top(bits, k - 1) <= s ==> v / Pow2(s) == p / Pow2(s)
    requires Slot(v, bits, k - 1) == data[k - 1]
    ensures SlotsMatch(v, data, bits, k)
  {
    forall i | 0 <= i < k
      ensures (TopMono(bits, i + 1, k); Slot(v, bits, i) == data[i])
    {
      if i < k - 1 {
        TopMono(bits, i + 1, k - 1);
        var s: nat := Top(bits, i + 1);
        assert v / Pow2(s) == p / Pow2(s);
      }
    }
  }

  lemma SlotAt(v: uint64, bits: nat, k: nat)
    requires 1 <= k && Top(bits, k) >= 0
    ensures Slot(v, bits, k - 1) == (v / Pow2(Top(bits, k))) % Pow2(bits)
  {}

  lemma LayoutStep(p: uint64, v: uint64, data: seq<uint64>, selector: nat, bits: nat, k: nat)
    requires 1 <= k <= |data| && Top(bits, k) >= 0
    requires data[k - 1] < Pow2(bits)
    requires Layout(p, data, selector, bits, k - 1)
    requires v == p + data[k - 1] * Pow2(Top(bits, k))
    ensures Layout(v, data, selector, bits, k)
  {
    var t: nat := Top(bits, k);
    assert Top(bits, k - 1) == t + bits;
    WordStep(p, v, data[k - 1], t, bits);
    SlotAt(v, bits, k);
    TopMono(bits, 0, k - 1);
    assert v / Pow2(60) == p / Pow2(60);
    SlotsStep(p, v, data, bits, k);
  }

  lemma {:induction false} PackLayout(data: seq<uint64>, selector: uint8, bits: nat, k: nat)
    requires k <= |data| && Top(bits, k) >= 0
    requires selector < 16
    requires forall j :: 0 <= j < k ==> data[j] < Pow2(bits)
    ensures Layout(PackedWord(data, selector, bits, k), data, selector, bits, k)
  {
    if k == 0 {
      Pow2Constants();
      DivModUnique(selector * TWO_60, TWO_64, 0, selector * TWO_60);
      DivModUnique(selector * TWO_60, TWO_60, selector, 0);
    } else {
      PackLayout(data, selector, bits, k - 1);
      PackStep(data, selector, bits, k);
      LayoutStep(PackedWord(data, selector, bits, k - 1), PackedWord(data, selector, bits, k), data, selector, bits, k);
    }
  }

  /** When every value fits, OR equals sum: the word is the selector times
      2^60 plus each value times 2^Top(bits, i + 1). */
  function Payload(data: seq<uint64>, bits: nat, k: nat): nat
    requires k <= |data| && Top(bits, k) >= 0
  {
    if k == 0 then 0 else Payload(data, bits, k - 1) + data[k - 1] * Pow2(Top(bits, k))
  }

  lemma {:induction false} PackedWordIsSum(data: seq<uint64>, selector: uint8, bits: nat, k: nat)
    requires k <= |data| && Top(bits, k) >= 0
    requires selector < 16
    requires forall j :: 0 <= j < k ==> data[j] < Pow2(bits)
    ensures PackedWord(data, selector, bits, k) == selector * TWO_60 + Payload(data, bits, k)
  {
    if k == 0 {
      Pow2Constants();
      DivModUnique(selector * TWO_60, TWO_64, 0, selector * TWO_60);
    } else {
      PackedWordIsSum(data, selector, bits, k - 1);
      PackLayout(data, selector, bits, k - 1);
      PackStep(data, selector, bits, k);
    }
  }

  lemma MulPred(b: int, y: int)
    ensures (b - 1) * y == b * y - y
  {}

  /** When every slot holds its largest value 2^bits - 1, all payload bits
      from 59 down to Top(bits, k) are set. */
  lemma {:induction false} PackAllMax(data: seq<uint64>, selector: uint8, bits: nat, k: nat)
    requires k <= |data| && Top(bits, k) >= 0
    requires selector < 16
    requires forall j :: 0 <= j < k ==> data[j] == Pow2(bits) - 1
    ensures PackedWord(data, selector, bits, k) == selector * TWO_60 + TWO_60 - Pow2(Top(bits, k))
  {
    Pow2Constants();
    if k == 0 {
      DivModUnique(selector * TWO_60, TWO_64, 0, selector * TWO_60);
    } else {
      PackAllMax(data, selector, bits, k - 1);
      PackLayout(data, selector, bits, k - 1);
      PackStep(data, selector, bits, k);
      var t: nat := Top(bits, k);
      Pow2Add(bits, t);
      assert Pow2(Top(bits, k - 1)) == Pow2(bits) * Pow2(t);
      MulPred(Pow2(bits), Pow2(t));
    }
  }

  /** Two ones in slots of `bits` bits, with the second slot at bit 0. */
  lemma TwoOnesWord(data: seq<uint64>, selector: uint8, bits: nat)
    requires |data| == 2 && data[0] == 1 && data[1] == 1
    requires selector < 16 && 1 <= bits && Top(bits, 2) == 0
    ensures PackedWord(data, selector, bits, 2) == selector * TWO_60 + Pow2(bits) + 1
  {
    assert Top(bits, 1) == bits;
    assert Payload(data, bits, 1) == Pow2(bits);
    assert Payload(data, bits, 2) == Pow2(bits) + 1;
    Pow2Mono(0, bits);
    PackedWordIsSum(data, selector, bits, 2);
  }

  /** The expected words of the source's `pack` tests: two 30-bit ones under selector 14, */
  lemma PackExampleTwoSlots()
    ensures PackedWord([1, 1], 14, 30, 2) == 0xE000_0000_4000_0001
  {
    Pow2Constants();
    Pow2Of30();
    TwoOnesWord([1, 1], 14, 30);
  }

  /** sixty 1-bit ones under selector 2, */
  lemma PackExampleOnes()
    ensures (TopIsProduct(1, 60); PackedWord(seq(60, _ => 1), 2, 1, 60) == 0x2FFF_FFFF_FFFF_FFFF)
  {
    Pow2Constants();
    TopIsProduct(1, 60);
    assert Pow2(1) == 2 && Pow2(0) == 1;
    PackAllMax(seq(60, _ => 1), 2, 1, 60);
  }

  /** and seven 8-bit 255s under selector 9. */
  lemma PackExampleBytes()
    ensures (TopIsProduct(8, 7); PackedWord(seq(7, _ => 255), 9, 8, 7) == 0x9FFF_FFFF_FFFF_FFF0)
  {
    Pow2Constants();
    TopIsProduct(8, 7);
    Pow2Of4();
    Pow2Of8();
    PackAllMax(seq(7, _ => 255), 9, 8, 7);
  }

  // ---------------------------------------------------------------------------
  // simple8b_encode
  // ---------------------------------------------------------------------------

  /** Every value is below 2^60. Without this the source's loop never ends
      (see NoModeForLargeValue). */
  predicate AllFit60(data: seq<uint64>)
  {
    forall i :: 0 <= i < |data| ==> data[i] < TWO_60
  }

  /** Selector 15 (one 60-bit slot) packs any non-empty buffer of values below 2^60. */
  lemma Selector15Usable(data: seq<uint64>)
    requires |data| > 0 && AllFit60(data)
    ensures Packable(data, INTEGERS_CODED[15], BPI[15])
  {
    Pow2Constants();
  }

  /** A buffer whose first value is 2^60 or more fits no mode at all, so the
      source's `while` loop would spin on it for ever. */
  lemma NoModeForLargeValue(data: seq<uint64>)
    requires |data| > 0 && data[0] >= TWO_60
    ensures forall s :: 0 <= s < 16 ==> !Packable(data, INTEGERS_CODED[s], BPI[s])
  {
    TableInvariant();
    Pow2Constants();
    forall s | 0 <= s < 16
      ensures !Packable(data, INTEGERS_CODED[s], BPI[s])
    {
      if INTEGERS_CODED[s] <= |data| {
        InspectedPrefix(|data|, INTEGERS_CODED[s]);
        Pow2Mono(BPI[s], 60);
      }
    }
  }

  /** No selector below s can pack the buffer. */
  predicate NoneUsableBelow(data: seq<uint64>, s: nat)
    requires s <= 16
  {
    forall r :: 0 <= r < s ==> !Packable(data, INTEGERS_CODED[r], BPI[r])
  }

  lemma NoneUsableStep(data: seq<uint64>, s: nat)
    requires s < 16 && NoneUsableBelow(data, s) && !Packable(data, INTEGERS_CODED[s], BPI[s])
    ensures NoneUsableBelow(data, s + 1)
  {}

  /** The selector the `for` loop of `simple8b_encode` stops at, searching from `from`:
      the lowest one whose mode can pack the buffer. */
  function FirstSelector(data: seq<uint64>, from: nat): (s: nat)
    requires from < 16 && |data| > 0 && AllFit60(data)
    ensures from <= s < 16 && Packable(data, INTEGERS_CODED[s], BPI[s])
    ensures forall r :: from <= r < s ==> !Packable(data, INTEGERS_CODED[r], BPI[r])
    decreases 16 - from
  {
    if Packable(data, INTEGERS_CODED[from], BPI[from]) then from
    else
      Selector15Usable(data);
      FirstSelector(data, from + 1)
  }

  /** The words `simple8b_encode` returns: greedily, the word of the first
      usable selector, then the encoding of what that word does not hold. */
  function Encoding(data: seq<uint64>): seq<uint64>
    requires AllFit60(data)
    decreases |data|
  {
    if |data| == 0 then []
    else
      var s := FirstSelector(data, 0);
      TableInvariant();
      var n := INTEGERS_CODED[s];
      [PackedWord(data, SELECTOR_VALUE[s], BPI[s], n)] + Encoding(data[n..])
  }

  lemma AllFit60Suffix(data: seq<uint64>, n: nat)
    requires AllFit60(data) && n <= |data|
    ensures AllFit60(data[n..])
  {}

  /** The first usable selector is the one below which none is usable. */
  lemma FirstSelectorIs(data: seq<uint64>, s: nat)
    requires |data| > 0 && AllFit60(data) && s < 16
    requires Packable(data, INTEGERS_CODED[s], BPI[s])
    requires NoneUsableBelow(data, s)
    ensures FirstSelector(data, 0) == s
  {}

  /** One round of the encoder: the word of selector s, then the rest. */
  lemma EncodingStep(data: seq<uint64>, s: nat)
    requires |data| > 0 && AllFit60(data) && s < 16
    requires FirstSelector(data, 0) == s
    ensures INTEGERS_CODED[s] <= |data|
    ensures (TableInvariant();
      Encoding(data) == [PackedWord(data, s, BPI[s], INTEGERS_CODED[s])] + Encoding(data[INTEGERS_CODED[s]..]))
  {
    TableInvariant();
  }

  lemma AppendWord(done: seq<uint64>, w: uint64, rest: seq<uint64>)
    ensures (done + [w]) + rest == done + ([w] + rest)
  {}

  method Encode(data: seq<uint64>) returns (encodedData: seq<uint64>)
    requires AllFit60(data)
    ensures encodedData == Encoding(data)
  {
    TableInvariant();
    encodedData := [];
    var buff := data;
    while |buff| > 0
      invariant AllFit60(buff)
      invariant encodedData + Encoding(buff) == Encoding(data)
      decreases |buff|
    {
      ghost var start, done := buff, encodedData;
      Selector15Usable(buff);
      for selector := 0 to 16
        invariant buff == start && encodedData == done
        invariant NoneUsableBelow(start, selector)
      {
        var intCount, numBits := INTEGERS_CODED[selector], BPI[selector];
        var canPack := CanPack(buff, intCount, numBits);
        if canPack {
          var packed := Pack(buff, SELECTOR_VALUE[selector], intCount, numBits);
          FirstSelectorIs(start, selector);
          EncodingStep(start, selector);
          AllFit60Suffix(start, intCount);
          AppendWord(done, packed, Encoding(start[intCount..]));
          buff := buff[intCount..];
          encodedData := encodedData + [packed];
          break;
        }
        NoneUsableStep(start, selector);
      }
    }
  }

  // ---------------------------------------------------------------------------
  // Reading words back (specification aid; the source's decoder is unfinished)
  // ---------------------------------------------------------------------------

  /** The values a word holds: its selector's count of slots of its selector's
      width, or that many ones for the two all-ones selectors. */
  ghost function Unpack(word: uint64): seq<nat>
  {
    var s := SelectorOf(word);
    TableInvariant();
    var n, b := INTEGERS_CODED[s], BPI[s];
    if b == 0 then seq(n, _ => 1)
    else seq(n, i requires 0 <= i < n => TopMono(b, i + 1, n); Slot(word, b, i))
  }

  ghost function ReadBack(words: seq<uint64>): seq<nat>
  {
    if words == [] then [] else Unpack(words[0]) + ReadBack(words[1..])
  }

  lemma SplitAt(data: seq<uint64>, n: nat)
    requires n <= |data|
    ensures data[..n] + data[n..] == data
  {}

  lemma ReadBackCons(w: uint64, rest: seq<uint64>)
    ensures ReadBack([w] + rest) == Unpack(w) + ReadBack(rest)
  {
    assert ([w] + rest)[0] == w && ([w] + rest)[1..] == rest;
  }

  /** A word laid out with selector s >= 2 and its INTEGERS_CODED[s] slots reads back as those slots. */
  lemma UnpackLayout(w: uint64, data: seq<uint64>, s: nat)
    requires 2 <= s < 16 && INTEGERS_CODED[s] <= |data|
    requires (TableInvariant(); Layout(w, data, s, BPI[s], INTEGERS_CODED[s]))
    ensures Unpack(w) == data[..INTEGERS_CODED[s]]
  {
    TableInvariant();
    var n, b := INTEGERS_CODED[s], BPI[s];
    assert SelectorOf(w) == s;
    var u := Unpack(w);
    assert u == seq(n, i requires 0 <= i < n => TopMono(b, i + 1, n); Slot(w, b, i));
    forall i | 0 <= i < n
      ensures u[i] == data[i]
    {
      TopMono(b, i + 1, n);
      assert u[i] == Slot(w, b, i);
    }
  }

  /** The word of the first usable selector reads back as the values it took. */
  lemma UnpackFirstWord(data: seq<uint64>, s: nat)
    requires |data| > 0 && AllFit60(data) && s < 16 && FirstSelector(data, 0) == s
    ensures (TableInvariant(); Unpack(PackedWord(data, s, BPI[s], INTEGERS_CODED[s])) == data[..INTEGERS_CODED[s]])
  {
    TableInvariant();
    var n, b := INTEGERS_CODED[s], BPI[s];
    ZeroBitsNeverPack(data, n);
    PackableFits(data, n, b);
    PackLayout(data, s, b, n);
    UnpackLayout(PackedWord(data, s, b, n), data, s);
  }

  /** Lossless: reading every word's slots back, in order, gives the input. */
  lemma {:induction false} EncodeRoundTrip(data: seq<uint64>)
    requires AllFit60(data)
    ensures ReadBack(Encoding(data)) == data
    decreases |data|
  {
    if |data| > 0 {
      TableInvariant();
      var s := FirstSelector(data, 0);
      var n := INTEGERS_CODED[s];
      EncodingStep(data, s);
      UnpackFirstWord(data, s);
      AllFit60Suffix(data, n);
      EncodeRoundTrip(data[n..]);
      ReadBackCons(PackedWord(data, s, BPI[s], n), Encoding(data[n..]));
      SplitAt(data, n);
    }
  }

  /** The word of the first usable selector carries that selector, which is at least 2. */
  lemma FirstWordSelector(data: seq<uint64>, s: nat)
    requires |data| > 0 && AllFit60(data) && s < 16 && FirstSelector(data, 0) == s
    ensures 2 <= s
    ensures (TableInvariant(); SelectorOf(PackedWord(data, s, BPI[s], INTEGERS_CODED[s])) == s)
  {
    TableInvariant();
    var n, b := INTEGERS_CODED[s], BPI[s];
    ZeroBitsNeverPack(data, n);
    PackableFits(data, n, b);
    PackLayout(data, s, b, n);
  }

  lemma SelectorsCons(w: uint64, rest: seq<uint64>)
    requires 2 <= SelectorOf(w)
    requires forall k :: 0 <= k < |rest| ==> 2 <= SelectorOf(rest[k])
    ensures forall k :: 0 <= k < |[w] + rest| ==> 2 <= SelectorOf(([w] + rest)[k])
  {
    forall k | 0 <= k < |[w] + rest|
      ensures 2 <= SelectorOf(([w] + rest)[k])
    {
      if k > 0 { assert ([w] + rest)[k] == rest[k - 1]; }
    }
  }

  /** The encoder never emits selector 0 or 1. */
  lemma {:induction false} EncodeAvoidsAllOnes(data: seq<uint64>)
    requires AllFit60(data)
    ensures forall k :: 0 <= k < |Encoding(data)| ==> 2 <= SelectorOf(Encoding(data)[k])
    decreases |data|
  {
    if |data| > 0 {
      TableInvariant();
      var s := FirstSelector(data, 0);
      var n := INTEGERS_CODED[s];
      EncodingStep(data, s);
      FirstWordSelector(data, s);
      AllFit60Suffix(data, n);
      EncodeAvoidsAllOnes(data[n..]);
      SelectorsCons(PackedWord(data, s, BPI[s], n), Encoding(data[n..]));
    }
  }

  // ---------------------------------------------------------------------------
  // Concrete encodings
  // ---------------------------------------------------------------------------

  /** A buffer that starts with sixty 1s, of which `can_pack` inspects only
      those sixty, is first given the word 0x2FFF_FFFF_FFFF_FFFF. */
  lemma OnesLead(data: seq<uint64>)
    requires AllFit60(data) && 60 <= |data| && Inspected(|data|, 60) == 60
    requires forall i :: 0 <= i < 60 ==> data[i] == 1
    ensures Encoding(data) == [0x2FFF_FFFF_FFFF_FFFF] + Encoding(data[60..])
  {
    ZeroBitsNeverPack(data, 240);
    ZeroBitsNeverPack(data, 120);
    assert Pow2(1) == 2;
    FirstSelectorIs(data, 2);
    EncodingStep(data, 2);
    TopIsProduct(1, 60);
    PackAllMax(data, 2, 1, 60);
  }

  /** Below 256 values, a mode for fewer values than remain inspects just its own. */
  lemma InspectedShort(len: nat, numElements: uint8)
    requires numElements < len < 256
    ensures Inspected(len, numElements) == numElements
  {
    SmallMod(len, 256);
  }

  /** A mode too narrow for the first value never packs. */
  lemma FirstTooWide(data: seq<uint64>, numElements: uint8, bits: nat)
    requires |data| > 0 && 1 <= numElements && data[0] >= Pow2(bits)
    ensures !Packable(data, numElements, bits)
  {
    if numElements <= |data| {
      InspectedPrefix(|data|, numElements);
    }
  }

  /** A buffer of 7 to 14 values starting with seven 255s, of which `can_pack`
      inspects seven for selector 9, is first given the word 0x9FFF_FFFF_FFFF_FFF0:
      selectors 2 to 5 want more values, 6 to 8 are too narrow for 255. */
  lemma BytesLead(data: seq<uint64>)
    requires AllFit60(data) && 7 <= |data| < 15 && Inspected(|data|, 7) == 7
    requires forall i :: 0 <= i < 7 ==> data[i] == 255
    ensures Encoding(data) == [0x9FFF_FFFF_FFFF_FFF0] + Encoding(data[7..])
  {
    BytesSelector(data);
    assert INTEGERS_CODED[9] == 7 && BPI[9] == 8;
    EncodingStep(data, 9);
    TopIsProduct(8, 7);
    Pow2Of4();
    Pow2Of8();
    PackAllMax(data, 9, 8, 7);
    assert Top(8, 7) == 4;
    assert PackedWord(data, 9, 8, 7) == 0x9FFF_FFFF_FFFF_FFF0;
  }

  lemma BytesSelector(data: seq<uint64>)
    requires AllFit60(data) && 7 <= |data| < 15 && Inspected(|data|, 7) == 7
    requires forall i :: 0 <= i < 7 ==> data[i] == 255
    ensures FirstSelector(data, 0) == 9
  {
    BytesTooMany(data);
    BytesTooWide(data);
    NoneUsableStep(data, 6);
    NoneUsableStep(data, 7);
    NoneUsableStep(data, 8);
    BytesFit(data);
    FirstSelectorIs(data, 9);
  }

  /** Selectors 0 to 5 want more than 14 values (or all 1s). */
  lemma BytesTooMany(data: seq<uint64>)
    requires |data| < 15 && |data| > 0 && data[0] == 255
    ensures NoneUsableBelow(data, 6)
  {
    ZeroBitsNeverPack(data, 240);
    ZeroBitsNeverPack(data, 120);
  }

  /** Selectors 6 to 8 have slots narrower than 8 bits. */
  lemma BytesTooWide(data: seq<uint64>)
    requires |data| > 0 && data[0] == 255
    ensures !Packable(data, INTEGERS_CODED[6], BPI[6])
    ensures !Packable(data, INTEGERS_CODED[7], BPI[7])
    ensures !Packable(data, INTEGERS_CODED[8], BPI[8])
  {
    Pow2Of8();
    Pow2Add(7, 1);
    Pow2Mono(5, 7);
    Pow2Mono(6, 7);
    FirstTooWide(data, 12, 5);
    FirstTooWide(data, 10, 6);
    FirstTooWide(data, 8, 7);
  }

  /** Selector 9 takes seven 8-bit values. */
  lemma BytesFit(data: seq<uint64>)
    requires 7 <= |data| && Inspected(|data|, 7) == 7
    requires forall i :: 0 <= i < 7 ==> data[i] == 255
    ensures Packable(data, INTEGERS_CODED[9], BPI[9])
  {
    Pow2Of8();
  }

  /** Sixty 1s give one word, */
  lemma SixtyOnes(d: seq<uint64>)
    requires |d| == 60 && forall i :: 0 <= i < 60 ==> d[i] == 1
    ensures AllFit60(d) && Encoding(d) == [0x2FFF_FFFF_FFFF_FFFF]
  {
    OnesLead(d);
    assert d[60..] == [];
  }

  /** a hundred and twenty 1s two, */
  lemma HundredTwentyOnes(d: seq<uint64>)
    requires |d| == 120 && forall i :: 0 <= i < 120 ==> d[i] == 1
    ensures AllFit60(d) && Encoding(d) == [0x2FFF_FFFF_FFFF_FFFF, 0x2FFF_FFFF_FFFF_FFFF]
  {
    InspectedShort(120, 60);
    OnesLead(d);
    SixtyOnes(d[60..]);
  }

  /** seven 255s one, */
  lemma SevenBytes(d: seq<uint64>)
    requires |d| == 7 && forall i :: 0 <= i < 7 ==> d[i] == 255
    ensures AllFit60(d) && Encoding(d) == [0x9FFF_FFFF_FFFF_FFF0]
  {
    BytesLead(d);
    assert d[7..] == [];
  }

  /** fourteen 255s two, */
  lemma FourteenBytes(d: seq<uint64>)
    requires |d| == 14 && forall i :: 0 <= i < 14 ==> d[i] == 255
    ensures AllFit60(d) && Encoding(d) == [0x9FFF_FFFF_FFFF_FFF0, 0x9FFF_FFFF_FFFF_FFF0]
  {
    InspectedShort(14, 7);
    BytesLead(d);
    SevenBytes(d[7..]);
  }

  /** sixty 1s followed by fourteen 255s three, */
  lemma OnesThenBytesTail(e: seq<uint64>)
    requires |e| == 74
    requires forall i :: 0 <= i < 60 ==> e[i] == 1
    requires forall i :: 60 <= i < 74 ==> e[i] == 255
    ensures AllFit60(e)
    ensures Encoding(e) == [0x2FFF_FFFF_FFFF_FFFF, 0x9FFF_FFFF_FFFF_FFF0, 0x9FFF_FFFF_FFFF_FFF0]
  {
    InspectedShort(74, 60);
    OnesLead(e);
    FourteenBytes(e[60..]);
  }

  /** and a hundred and twenty 1s followed by fourteen 255s four. */
  lemma OnesThenBytes(d: seq<uint64>)
    requires |d| == 134
    requires forall i :: 0 <= i < 120 ==> d[i] == 1
    requires forall i :: 120 <= i < 134 ==> d[i] == 255
    ensures AllFit60(d)
    ensures Encoding(d) ==
      [0x2FFF_FFFF_FFFF_FFFF, 0x2FFF_FFFF_FFFF_FFFF, 0x9FFF_FFFF_FFFF_FFF0, 0x9FFF_FFFF_FFFF_FFF0]
  {
    OnesThenBytesHead(d);
    OnesThenBytesShift(d);
    OnesThenBytesTail(d[60..]);
  }

  lemma OnesThenBytesHead(d: seq<uint64>)
    requires |d| == 134
    requires forall i :: 0 <= i < 120 ==> d[i] == 1
    requires forall i :: 120 <= i < 134 ==> d[i] == 255
    ensures AllFit60(d)
    ensures Encoding(d) == [0x2FFF_FFFF_FFFF_FFFF] + Encoding(d[60..])
  {
    InspectedShort(134, 60);
    OnesLead(d);
  }

  lemma OnesThenBytesShift(d: seq<uint64>)
    requires |d| == 134
    requires forall i :: 0 <= i < 120 ==> d[i] == 1
    requires forall i :: 120 <= i < 134 ==> d[i] == 255
    ensures |d[60..]| == 74
    ensures forall i :: 0 <= i < 60 ==> d[60..][i] == 1
    ensures forall i :: 60 <= i < 74 ==> d[60..][i] == 255
  {
    assert forall i :: 0 <= i < 74 ==> d[60..][i] == d[i + 60];
  }

  /** Powers of two at the slot boundaries of the 6-bit mode. */
  lemma Pow2Sixes()
    ensures Pow2(6) == 64 && Pow2(12) == 0x1000 && Pow2(18) == 0x4_0000
    ensures Pow2(24) == 0x100_0000 && Pow2(30) == 0x4000_0000 && Pow2(36) == 0x10_0000_0000
    ensures Pow2(42) == 0x400_0000_0000 && Pow2(48) == 0x1_0000_0000_0000
    ensures Pow2(54) == 0x40_0000_0000_0000
  {
    assert Pow2(6) == 64;
    Pow2Add(6, 6); Pow2Add(12, 6); Pow2Add(18, 6); Pow2Add(24, 6);
    Pow2Add(30, 6); Pow2Add(36, 6); Pow2Add(42, 6); Pow2Add(48, 6);
  }

  /** The ten values [1, 5, 2, 4, 3, 2, 4, 1, 5, 1] all fit in 6 bits but
      are too few for any mode with more slots, so they take selector 7. */
  lemma TenSmallSelector(d: seq<uint64>)
    requires d == [1, 5, 2, 4, 3, 2, 4, 1, 5, 1]
    ensures AllFit60(d) && FirstSelector(d, 0) == 7
  {
    ZeroBitsNeverPack(d, 240);
    ZeroBitsNeverPack(d, 120);
    Pow2Sixes();
    assert Packable(d, 10, 6);
    FirstSelectorIs(d, 7);
  }

  /** One more slot of the payload, with its position and weight already known. */
  lemma PayloadNext(data: seq<uint64>, bits: nat, k: nat, prev: nat, t: nat, p: nat)
    requires 1 <= k <= |data| && Top(bits, k) == t && Pow2(t) == p
    requires Payload(data, bits, k - 1) == prev
    ensures Payload(data, bits, k) == prev + data[k - 1] * p
  {}

  /** The first five slots of the 6-bit word for [1, 5, 2, 4, 3, 2, 4, 1, 5, 1]. */
  lemma TenSmallPayloadHalf(d: seq<uint64>)
    requires d == [1, 5, 2, 4, 3, 2, 4, 1, 5, 1]
    ensures Payload(d, 6, 5) == 0x450840C0000000
  {
    Pow2Sixes();
    assert Pow2(0) == 1;
    TopIsProduct(6, 1);
    PayloadNext(d, 6, 1, 0x0, 54, 0x40000000000000);
    TopIsProduct(6, 2);
    PayloadNext(d, 6, 2, 0x40000000000000, 48, 0x1000000000000);
    TopIsProduct(6, 3);
    PayloadNext(d, 6, 3, 0x45000000000000, 42, 0x40000000000);
    TopIsProduct(6, 4);
    PayloadNext(d, 6, 4, 0x45080000000000, 36, 0x1000000000);
    TopIsProduct(6, 5);
    PayloadNext(d, 6, 5, 0x45084000000000, 30, 0x40000000);
  }

  lemma TenSmallPayload(d: seq<uint64>)
    requires d == [1, 5, 2, 4, 3, 2, 4, 1, 5, 1]
    ensures (TopIsProduct(6, 10); Payload(d, 6, 10) == 0x450840C2101141)
  {
    TenSmallPayloadHalf(d);
    Pow2Sixes();
    assert Pow2(0) == 1;
    TopIsProduct(6, 6);
    PayloadNext(d, 6, 6, 0x450840C0000000, 24, 0x1000000);
    TopIsProduct(6, 7);
    PayloadNext(d, 6, 7, 0x450840C2000000, 18, 0x40000);
    TopIsProduct(6, 8);
    PayloadNext(d, 6, 8, 0x450840C2100000, 12, 0x1000);
    TopIsProduct(6, 9);
    PayloadNext(d, 6, 9, 0x450840C2101000, 6, 0x40);
    TopIsProduct(6, 10);
    PayloadNext(d, 6, 10, 0x450840C2101140, 0, 0x1);
  }

  lemma TenSmallWord(d: seq<uint64>)
    requires d == [1, 5, 2, 4, 3, 2, 4, 1, 5, 1]
    ensures (TopIsProduct(6, 10); PackedWord(d, 7, 6, 10) == 0x7045_0840_C210_1141)
  {
    TopIsProduct(6, 10);
    assert forall j :: 0 <= j < 10 ==> d[j] < Pow2(6) by {
      assert Pow2(6) == 64;
    }
    PackedWordIsSum(d, 7, 6, 10);
    TenSmallPayload(d);
    Pow2Constants();
  }

  lemma TenSmallEncoding(d: seq<uint64>)
    requires d == [1, 5, 2, 4, 3, 2, 4, 1, 5, 1]
    ensures AllFit60(d) && Encoding(d) == [0x7045_0840_C210_1141]
  {
    TenSmallSelector(d);
    assert INTEGERS_CODED[7] == |d| && BPI[7] == 6;
    SingleWord(d, 7);
    TenSmallWord(d);
  }

  /** A buffer whose first mode takes all of it encodes to that one word. */
  lemma SingleWord(data: seq<uint64>, s: nat)
    requires |data| > 0 && AllFit60(data) && s < 16
    requires FirstSelector(data, 0) == s && INTEGERS_CODED[s] == |data|
    ensures (TableInvariant(); Encoding(data) == [PackedWord(data, s, BPI[s], |data|)])
  {
    EncodingStep(data, s);
    assert data[|data|..] == [];
  }

  /** The flattened run-length pairs of [1,1,1,1,1,2,2,2,2,3,3,4,5] pack into
      one word of selector 7 with ten 6-bit slots. */
  lemma RunPairsEncoding()
    ensures Encoding([1, 5, 2, 4, 3, 2, 4, 1, 5, 1]) == [0x7045_0840_C210_1141]
  {
    TenSmallEncoding([1, 5, 2, 4, 3, 2, 4, 1, 5, 1]);
  }

  /** The expected outputs of the source's encoder tests. */
  lemma EncodeExamples()
    ensures Encoding(seq(60, _ => 1)) == [0x2FFF_FFFF_FFFF_FFFF]
    ensures Encoding(seq(120, _ => 1)) == [0x2FFF_FFFF_FFFF_FFFF, 0x2FFF_FFFF_FFFF_FFFF]
    ensures Encoding(seq(120, _ => 1) + seq(14, _ => 255)) ==
      [0x2FFF_FFFF_FFFF_FFFF, 0x2FFF_FFFF_FFFF_FFFF, 0x9FFF_FFFF_FFFF_FFF0, 0x9FFF_FFFF_FFFF_FFF0]
  {
    SixtyOnes(seq(60, _ => 1));
    HundredTwentyOnes(seq(120, _ => 1));
    OnesThenBytes(seq(120, _ => 1) + seq(14, _ => 255));
  }
}
