/**
  convertBits: regrouping numbers of one bit width into another, in 32-bit wrapping arithmetic.
  The reference is the bit string itself.
 */
module ConvertBits {
  import opened Nonlinear
  import opened Wrappers
  import opened Digits

  const TWO_32: nat := 0x1_0000_0000

  /** The bits of n, most significant first, in a field of the given width. */
  function BitsOf(n: nat, width: nat): (bits: seq<nat>)
    ensures |bits| == width && Within(bits, 2)
  {
    if width == 0 then [] else BitsOf(n / 2, width - 1) + [n % 2]
  }

  /** The concatenated bits of a list of numbers. */
  function AllBits(values: seq<nat>, width: nat): (bits: seq<nat>)
    ensures |bits| == width * |values| && Within(bits, 2)
  {
    if values == [] then [] else
      var front := AllBits(values[..|values| - 1], width);
      assert width * |values| == width * (|values| - 1) + width;
      front + BitsOf(values[|values| - 1], width)
  }

  /** Full groups of the given width, from the front; a shorter rest is dropped. */
  function Groups(bits: seq<nat>, width: nat): (r: seq<nat>)
    requires width > 0
    decreases |bits|
  {
    if |bits| < width then [] else
      var k := |bits| - |bits| % width;
      GroupStart(|bits|, width);
      Groups(bits[..k - width], width) + [Numeral(bits[k - width..k], 2)]
  }

  lemma GroupStart(n: nat, width: nat)
    requires 0 < width <= n
    ensures width <= n - n % width <= n
  {
    var q := n / width;
    assert n == q * width + n % width;
    if q <= 0 {
      MulMono(q, 0, width);
    } else {
      MulMono(1, q, width);
    }
  }

  ghost predicate InRange(values: seq<int>, width: nat) {
    forall i :: 0 <= i < |values| ==> 0 <= values[i] < Pow2(width)
  }

  /** Is out the input bit string minus a zero tail shorter than both widths? */
  ghost predicate Regroups(values: seq<int>, from: nat, out: seq<nat>, to: nat) {
    && InRange(values, from) && InRange(out, to)
    && exists tail: nat :: tail < from && tail < to && AllBits(values, from) == AllBits(out, to) + Zeros(tail)
  }

  // ---------------------------------------------------------------- bits of numbers

  lemma {:induction false} BitsNumeral(n: nat, width: nat)
    requires n < Pow2(width)
    ensures Numeral(BitsOf(n, width), 2) == n
  {
    if width > 0 {
      BitsNumeral(n / 2, width - 1);
      NumeralAppendOne(BitsOf(n / 2, width - 1), n % 2, 2);
    }
  }

  lemma {:induction false} NumeralBits(bits: seq<nat>)
    requires Within(bits, 2)
    ensures BitsOf(Numeral(bits, 2), |bits|) == bits
  {
    if bits != [] {
      var n := |bits| - 1;
      NumeralBits(bits[..n]);
      DivModUnique(Numeral(bits, 2), 2, Numeral(bits[..n], 2), bits[n]);
      assert bits == bits[..n] + [bits[n]];
    }
  }

  lemma AllBitsStep(values: seq<nat>, v: nat, width: nat)
    ensures AllBits(values + [v], width) == AllBits(values, width) + BitsOf(v, width)
  {
    assert (values + [v])[..|values|] == values;
  }

  /** Groups of a regrouped string are the numbers it was made of. */
  lemma {:induction false} GroupsOfAllBits(out: seq<nat>, to: nat, tail: seq<nat>)
    requires to > 0 && InRange(out, to) && |tail| < to
    ensures Groups(AllBits(out, to) + tail, to) == out
    decreases |out|
  {
    hide Numeral, BitsOf, Pow2, Groups;
    var bits := AllBits(out, to) + tail;
    if out == [] {
      ShortGroups(bits, to);
    } else {
      var n := |out| - 1;
      var front, last := AllBits(out[..n], to), BitsOf(out[n], to);
      DivModUnique(|front|, to, n, 0);
      GroupsStep(front, last, tail, to);
      assert front + [] == front;
      GroupsOfAllBits(out[..n], to, []);
      BitsNumeral(out[n], to);
      assert out == out[..n] + [out[n]];
    }
  }

  lemma ShortGroups(bits: seq<nat>, width: nat)
    requires |bits| < width
    ensures Groups(bits, width) == []
  {
  }

  /** The last full group comes off the end. */
  lemma GroupsStep(front: seq<nat>, last: seq<nat>, rest: seq<nat>, width: nat)
    requires width > 0 && |front| % width == 0 && |last| == width && |rest| < width
    ensures Groups(front + last + rest, width) == Groups(front, width) + [Numeral(last, 2)]
  {
    hide Numeral;
    var bits := front + last + rest;
    var q := |front| / width;
    assert |bits| == (q + 1) * width + |rest|;
    DivModUnique(|bits|, width, q + 1, |rest|);
    assert bits[..|front|] == front && bits[|front|..|front| + width] == last;
  }

  /** Two regroupings of one list are the same: the result is determined. */
  lemma RegroupingUnique(values: seq<int>, from: nat, out: seq<nat>, out': seq<nat>, to: nat)
    requires to > 0 && Regroups(values, from, out, to) && Regroups(values, from, out', to)
    ensures out == out'
  {
    var t: nat :| t < from && t < to && AllBits(values, from) == AllBits(out, to) + Zeros(t);
    var t': nat :| t' < from && t' < to && AllBits(values, from) == AllBits(out', to) + Zeros(t');
    GroupsOfAllBits(out, to, Zeros(t));
    GroupsOfAllBits(out', to, Zeros(t'));
  }

  // ---------------------------------------------------------------- wrapping arithmetic

  /** ToInt32. */
  function Int32(n: int): (r: int)
    ensures -0x8000_0000 <= r < 0x8000_0000
    ensures r % TWO_32 == n % TWO_32
  {
    (n + 0x8000_0000) % TWO_32 - 0x8000_0000
  }

  /** Bitwise or of two's complement integers. */
  function Or(a: int, b: int): int
    decreases if a < 0 then -a else a
  {
    if a == 0 then b else if a == -1 then -1
    else 2 * Or(a / 2, b / 2) + (if a % 2 == 1 || b % 2 == 1 then 1 else 0)
  }

  /** Below cleared low bits, or is addition. */
  lemma {:induction false} OrIsSum(a: int, b: nat, k: nat)
    requires a % Pow2(k) == 0 && b < Pow2(k)
    ensures Or(a, b) == a + b
    decreases k
  {
    if a == 0 {
    } else if k == 0 {
      OrZero(a);
    } else {
      EvenHalf(a, k);
      if a != -1 {
        OrIsSum(a / 2, b / 2, k - 1);
      }
    }
  }

  lemma EvenHalf(a: int, k: nat)
    requires k > 0 && a % Pow2(k) == 0
    ensures a % 2 == 0 && (a / 2) % Pow2(k - 1) == 0
  {
    var q, p := a / Pow2(k), Pow2(k - 1);
    assert a == (q * p) * 2 by {
      assert a == q * (2 * p);
    }
    DivModUnique(a, 2, q * p, 0);
    DivModUnique(q * p, p, q, 0);
  }

  lemma {:induction false} OrZero(a: int)
    ensures Or(a, 0) == a
    decreases if a < 0 then -a else a
  {
    if a != 0 && a != -1 {
      OrZero(a / 2);
    }
  }

  /** Wrapping at 32 bits is invisible to the bits read back, as long as they lie below bit 32. */
  lemma WrapInvisible(acc: int, n: int, shift: nat, width: nat)
    requires acc % TWO_32 == n % TWO_32 && shift + width <= 32
    ensures (acc / Pow2(shift)) % Pow2(width) == (n / Pow2(shift)) % Pow2(width)
  {
    var k := acc / TWO_32 - n / TWO_32;
    assert acc == n + k * TWO_32;
    var m := Pow2(32 - shift - width);
    assert TWO_32 == (m * Pow2(width)) * Pow2(shift) by {
      Pow2Of32();
      Pow2Add(32 - shift - width, width);
      Pow2Add(32 - shift, shift);
    }
    assert k * TWO_32 == ((k * m) * Pow2(width)) * Pow2(shift) by {
      MulAssociates(k, m * Pow2(width), Pow2(shift));
      MulAssociates(k, m, Pow2(width));
    }
    DivAddMultiple(n, (k * m) * Pow2(width), Pow2(shift));
    DivAddMultiple(n / Pow2(shift), k * m, Pow2(width));
  }

  lemma Pow2Of32()
    ensures Pow2(32) == TWO_32
  {
    assert Pow2(8) == 256;
    Pow2Add(8, 8);
    Pow2Add(16, 16);
  }

  // ---------------------------------------------------------------- the loop

  /** What the accumulator loop has done: the groups so far, and the bits still waiting. */
  ghost predicate Progress(bits: seq<nat>, result: seq<nat>, to: nat, bitCount: nat, acc: int) {
    && bitCount <= |bits|
    && InRange(result, to)
    && AllBits(result, to) == bits[..|bits| - bitCount]
    && acc % TWO_32 == Numeral(bits, 2) % TWO_32
  }

  lemma SplitNumeral(bits: seq<nat>, k: nat)
    requires Within(bits, 2) && k <= |bits|
    ensures Numeral(bits, 2) / Pow2(|bits| - k) == Numeral(bits[..k], 2)
    ensures Numeral(bits, 2) % Pow2(|bits| - k) == Numeral(bits[k..], 2)
  {
    NumeralAppend(bits[..k], bits[k..], 2);
    assert bits == bits[..k] + bits[k..];
    NumeralBound(bits[k..], 2);
    DivModUnique(Numeral(bits, 2), Pow2(|bits| - k), Numeral(bits[..k], 2), Numeral(bits[k..], 2));
  }

  lemma SliceNumeral(bits: seq<nat>, drop: nat, width: nat)
    requires Within(bits, 2) && drop + width <= |bits|
    ensures
      var k := |bits| - drop;
      (Numeral(bits, 2) / Pow2(drop)) % Pow2(width) == Numeral(bits[k - width..k], 2)
  {
    hide Numeral, Pow2;
    var k := |bits| - drop;
    SplitNumeral(bits, k);
    SplitNumeral(bits[..k], k - width);
    assert bits[..k][k - width..] == bits[k - width..k];
  }

  /** One group leaves the accumulator. */
  lemma PushGroup(bits: seq<nat>, result: seq<nat>, to: nat, bitCount: nat, acc: int)
    requires Within(bits, 2) && Progress(bits, result, to, bitCount, acc) && to <= bitCount <= 32
    ensures
      var next := (acc / Pow2(bitCount - to)) % Pow2(to);
      0 <= next && Progress(bits, result + [next], to, bitCount - to, acc)
  {
    hide Numeral, Pow2, BitsOf, AllBits;
    var c := bitCount - to;
    WrapInvisible(acc, Numeral(bits, 2), c, to);
    SliceNumeral(bits, c, to);
    var k := |bits| - c;
    var group := bits[k - to..k];
    NumeralBits(group);
    GroupInRange(group);
    AllBitsStep(result, Numeral(group, 2), to);
    assert bits[..k] == bits[..k - to] + group;
  }

  lemma GroupInRange(group: seq<nat>)
    requires Within(group, 2)
    ensures Numeral(group, 2) < Pow2(|group|)
  {
    NumeralBound(group, 2);
  }

  /** One value enters the accumulator. */
  lemma TakeValue(bits: seq<nat>, result: seq<nat>, to: nat, bitCount: nat, acc: int, v: nat, from: nat)
    requires Progress(bits, result, to, bitCount, acc) && v < Pow2(from) && from <= 32
    ensures
      var acc' := Or(Int32(acc * Pow2(from)), v);
      Progress(bits + BitsOf(v, from), result, to, bitCount + from, acc')
  {
    hide Numeral, Pow2, BitsOf, AllBits, Int32, Or;
    var shifted := Int32(acc * Pow2(from));
    ShiftClears(acc, from);
    OrIsSum(shifted, v, from);
    var n := Numeral(bits, 2);
    AppendedNumeral(bits, v, from);
    var bits' := bits + BitsOf(v, from);
    SameResidue(acc, n, shifted, Pow2(from), v);
    assert bits'[..|bits'| - (bitCount + from)] == bits[..|bits| - bitCount];
  }

  lemma AppendedNumeral(bits: seq<nat>, v: nat, width: nat)
    requires v < Pow2(width)
    ensures Numeral(bits + BitsOf(v, width), 2) == Numeral(bits, 2) * Pow2(width) + v
  {
    BitsNumeral(v, width);
    NumeralAppend(bits, BitsOf(v, width), 2);
  }

  lemma SameResidue(acc: int, n: int, shifted: int, p: int, v: int)
    requires acc % TWO_32 == n % TWO_32 && shifted % TWO_32 == (acc * p) % TWO_32
    ensures (shifted + v) % TWO_32 == (n * p + v) % TWO_32
  {
    var k := acc / TWO_32 - n / TWO_32;
    assert acc == n + k * TWO_32;
    assert acc * p == n * p + (k * p) * TWO_32;
    DivAddMultiple(n * p, k * p, TWO_32);
    var j := shifted / TWO_32 - (n * p) / TWO_32;
    assert shifted == n * p + j * TWO_32;
    DivAddMultiple(n * p + v, j, TWO_32);
  }

  lemma ShiftClears(acc: int, from: nat)
    requires from <= 32
    ensures Int32(acc * Pow2(from)) % Pow2(from) == 0
  {
    var x, p, m := Int32(acc * Pow2(from)), Pow2(from), Pow2(32 - from);
    assert TWO_32 == m * p by {
      Pow2Of32();
      Pow2Add(32 - from, from);
    }
    var k := x / TWO_32 - (acc * p) / TWO_32;
    assert x == acc * p + k * (m * p);
    assert x == (acc + k * m) * p;
    DivModUnique(x, p, acc + k * m, 0);
  }

  /** The padding test reads the bits that are left over. */
  lemma PaddingTest(bits: seq<nat>, result: seq<nat>, to: nat, bitCount: nat, acc: int)
    requires Within(bits, 2) && Progress(bits, result, to, bitCount, acc) && bitCount < to <= 32
    ensures Int32(acc * Pow2(to - bitCount)) % Pow2(to) == 0
      <==> bits == AllBits(result, to) + Zeros(bitCount)
  {
    hide Numeral, AllBits, Int32, InRange;
    var rest := bits[|bits| - bitCount..];
    PaddingValue(bits, to, bitCount, acc);
    ZeroRest(rest, Pow2(to - bitCount));
    assert bits == bits[..|bits| - bitCount] + rest;
    if bits == AllBits(result, to) + Zeros(bitCount) {
      assert rest == Zeros(bitCount);
    }
  }

  lemma PaddingValue(bits: seq<nat>, to: nat, bitCount: nat, acc: int)
    requires Within(bits, 2) && bitCount < to <= 32 && bitCount <= |bits|
    requires acc % TWO_32 == Numeral(bits, 2) % TWO_32
    ensures Int32(acc * Pow2(to - bitCount)) % Pow2(to) == Pow2(to - bitCount) * Numeral(bits[|bits| - bitCount..], 2)
  {
    hide Numeral, Int32, Pow2, Within;
    var rest := bits[|bits| - bitCount..];
    var n, p, b := Numeral(bits, 2), Pow2(to - bitCount), Pow2(bitCount);
    SliceNumeral(bits, 0, bitCount);
    assert bits[|bits| - bitCount..|bits|] == rest;
    WrappedResidue(acc, n, p, to);
    Pow2Add(to - bitCount, bitCount);
    ScaledRemainder(n, p, b);
    NoShift(n, b);
  }

  lemma NoShift(n: nat, b: nat)
    requires b > 0
    ensures (n / Pow2(0)) % b == n % b
  {
  }

  lemma WrappedResidue(acc: int, n: nat, p: nat, to: nat)
    requires acc % TWO_32 == n % TWO_32 && to <= 32
    ensures Int32(acc * p) % Pow2(to) == (n * p) % Pow2(to)
  {
    hide Int32;
    var x := Int32(acc * p);
    SameResidue(acc, n, x, p, 0);
    WrapInvisible(x, n * p, 0, to);
    DivByOne(x);
    DivByOne(n * p);
  }

  lemma DivByOne(n: int)
    ensures n / Pow2(0) == n
  {
  }

  lemma ScaledRemainder(n: nat, p: nat, b: nat)
    requires p > 0 && b > 0
    ensures p * b > 0 && (n * p) % (p * b) == p * (n % b)
  {
    var q, r := n / b, n % b;
    assert n * p == q * (p * b) + p * r by {
      assert n == q * b + r;
      assert (q * b + r) * p == q * (p * b) + p * r;
    }
    MulStrict(r, b, p);
    MulMono(0, r, p);
    DivModUnique(n * p, p * b, q, p * r);
  }

  lemma ZeroRest(rest: seq<nat>, p: nat)
    requires Within(rest, 2) && p > 0
    ensures p * Numeral(rest, 2) == 0 <==> rest == Zeros(|rest|)
  {
    if rest == Zeros(|rest|) {
      ZerosNumeral(|rest|);
    } else if Numeral(rest, 2) == 0 {
      ZerosNumeral(|rest|);
      NumeralInjective(rest, Zeros(|rest|), 2);
    } else {
      MulMono(1, Numeral(rest, 2), p);
    }
  }

  lemma {:induction false} ZerosNumeral(n: nat)
    ensures Numeral(Zeros(n), 2) == 0
  {
    if n > 0 {
      ZerosNumeral(n - 1);
      assert Zeros(n)[..n - 1] == Zeros(n - 1);
    }
  }

  /**
    The source loop, with its 32-bit accumulator: it returns the input bit string minus a zero tail
    shorter than a source group, and nothing exactly when no such tail exists or a value is out of
    range.
   */
  method Convert(values: seq<int>, from: nat, to: nat) returns (r: Option<seq<nat>>)
    requires 1 <= from && 1 <= to && from + to <= 32
    requires forall i :: 0 <= i < |values| ==> -0x8000_0000 <= values[i] < 0x8000_0000
    ensures r.Some? ==> Regroups(values, from, r.value, to)
    ensures r.None? ==> forall out: seq<nat> :: !Regroups(values, from, out, to)
  {
    hide Regroups, Progress, AllBits, BitsOf, Numeral, Pow2, Int32, Or;
    NothingYet(to);
    var accumulator := 0;
    var bitCount: nat := 0;
    var result: seq<nat> := [];
    ghost var bits: seq<nat> := [];
    for i := 0 to |values|
      invariant InRange(values[..i], from) && bits == AllBits(values[..i], from)
      invariant bitCount < to && Progress(bits, result, to, bitCount, accumulator)
    {
      var value := values[i];
      if value < 0 || value / Pow2(from) != 0 {
        OutOfRange(values, i, from);
        return None;
      }
      InsideRange(value, from);
      TakeValue(bits, result, to, bitCount, accumulator, value, from);
      AllBitsStep(values[..i], value, from);
      assert values[..i + 1] == values[..i] + [value];
      bits := bits + BitsOf(value, from);
      accumulator := Or(Int32(accumulator * Pow2(from)), value);
      bitCount := bitCount + from;
      while bitCount >= to
        invariant bitCount <= 32 && Progress(bits, result, to, bitCount, accumulator)
      {
        PushGroup(bits, result, to, bitCount, accumulator);
        bitCount := bitCount - to;
        result := result + [(accumulator / Pow2(bitCount)) % Pow2(to)];
      }
    }
    assert values[..|values|] == values;
    PaddingTest(bits, result, to, bitCount, accumulator);
    if bitCount >= from || Int32(accumulator * Pow2(to - bitCount)) % Pow2(to) != 0 {
      OtherTails(values, from, bits, result, to, bitCount, accumulator);
      return None;
    }
    Regrouped(values, from, bits, result, to, bitCount, accumulator);
    r := Some(result);
  }

  lemma NothingYet(to: nat)
    ensures Progress([], [], to, 0, 0) && AllBits([], to) == [] && forall from: nat :: AllBits([], from) == []
  {
  }

  lemma Regrouped(values: seq<int>, from: nat, bits: seq<nat>, result: seq<nat>, to: nat, bitCount: nat, acc: int)
    requires InRange(values, from) && bits == AllBits(values, from) && Progress(bits, result, to, bitCount, acc)
    requires bitCount < to && bitCount < from && bits == AllBits(result, to) + Zeros(bitCount)
    ensures Regroups(values, from, result, to)
  {
  }

  lemma OutOfRange(values: seq<int>, i: nat, from: nat)
    requires i < |values| && (values[i] < 0 || values[i] / Pow2(from) != 0)
    ensures forall out: seq<nat>, to: nat :: !Regroups(values, from, out, to)
  {
    if 0 <= values[i] < Pow2(from) {
      DivModUnique(values[i], Pow2(from), 0, values[i]);
    }
    assert !InRange(values, from);
  }

  lemma InsideRange(v: nat, from: nat)
    requires v / Pow2(from) == 0
    ensures v < Pow2(from)
  {
    assert v == (v / Pow2(from)) * Pow2(from) + v % Pow2(from);
  }

  /** No other tail can work: its length is fixed by the lengths. */
  lemma OtherTails(values: seq<int>, from: nat, bits: seq<nat>, result: seq<nat>, to: nat, bitCount: nat, acc: int)
    requires InRange(values, from) && bits == AllBits(values, from) && Progress(bits, result, to, bitCount, acc)
    requires bitCount < to && (bitCount >= from || bits != AllBits(result, to) + Zeros(bitCount))
    ensures forall out: seq<nat> :: !Regroups(values, from, out, to)
  {
    forall out: seq<nat> ensures !Regroups(values, from, out, to) {
      if Regroups(values, from, out, to) {
        TailForced(values, from, bits, result, to, bitCount, acc, out);
      }
    }
  }

  lemma TailForced(values: seq<int>, from: nat, bits: seq<nat>, result: seq<nat>, to: nat, bitCount: nat, acc: int, out: seq<nat>)
    requires Regroups(values, from, out, to)
    requires bits == AllBits(values, from) && Progress(bits, result, to, bitCount, acc) && bitCount < to
    ensures bitCount < from && bits == AllBits(result, to) + Zeros(bitCount)
  {
    hide AllBits, Numeral, Zeros;
    var tail: nat :| tail < from && tail < to && AllBits(values, from) == AllBits(out, to) + Zeros(tail);
    CutsAgree(bits, AllBits(out, to), |out|, tail, AllBits(result, to), |result|, bitCount, to);
  }

  /** Two cuts of one bit string into whole groups and a short rest are the same cut. */
  lemma CutsAgree(bits: seq<nat>, front: seq<nat>, q: nat, tail: nat, front': seq<nat>, q': nat, count: nat, to: nat)
    requires bits == front + Zeros(tail) && |front| == to * q && tail < to
    requires count <= |bits| && front' == bits[..|bits| - count] && |front'| == to * q' && count < to
    ensures count == tail && bits == front' + Zeros(count)
  {
    SameTail(to, q, tail, q', count);
    assert bits[..|front|] == front;
  }

  lemma SameTail(to: nat, q: nat, r: nat, q': nat, r': nat)
    requires to * q + r == to * q' + r' && r < to && r' < to
    ensures r == r'
  {
    DivModUnique(to * q + r, to, q, r);
    DivModUnique(to * q' + r', to, q', r');
  }

  // ---------------------------------------------------------------- the inverse

  /** How many zero bits complete the last group. */
  function Padding(n: nat, width: nat): (p: nat)
    requires width > 0
    ensures p < width && (n + p) % width == 0
  {
    if n % width == 0 then DivAddMultiple(n, 0, width); 0 else
      PaddingFills(n, width);
      width - n % width
  }

  lemma PaddingFills(n: nat, width: nat)
    requires width > 0
    ensures (n + (width - n % width)) % width == 0
  {
    var q := n / width;
    assert n + (width - n % width) == (q + 1) * width;
    DivModUnique((q + 1) * width, width, q + 1, 0);
  }

  /** The padded encoder: the same bit string with zeros added to fill the last group. */
  function Encode(bytes: seq<nat>, to: nat, from: nat): seq<nat>
    requires from > 0
  {
    var bits := AllBits(bytes, to);
    Groups(bits + Zeros(Padding(|bits|, from)), from)
  }

  lemma {:induction false} AllBitsOfGroups(bits: seq<nat>, width: nat)
    requires width > 0 && Within(bits, 2) && |bits| % width == 0
    ensures AllBits(Groups(bits, width), width) == bits && InRange(Groups(bits, width), width)
    decreases |bits|
  {
    hide Numeral, BitsOf, Pow2, AllBits, Groups;
    if |bits| < width {
      DivModUnique(|bits|, width, 0, |bits|);
      EmptyBits(width);
      ShortGroups(bits, width);
    } else {
      var k := |bits| - width;
      DivAddMultiple(|bits|, -1, width);
      var group := bits[k..|bits|];
      GroupsStep(bits[..k], group, [], width);
      assert bits == bits[..k] + group + [];
      AllBitsOfGroups(bits[..k], width);
      NumeralBits(group);
      GroupInRange(group);
      AllBitsStep(Groups(bits[..k], width), Numeral(group, 2), width);
      assert bits == bits[..k] + group;
    }
  }

  lemma EmptyBits(width: nat)
    ensures AllBits([], width) == []
  {
  }

  /** Decoding undoes encoding. */
  lemma DecodeEncode(bytes: seq<nat>, to: nat, from: nat)
    requires 1 <= from <= to && InRange(bytes, to)
    ensures Regroups(Encode(bytes, to, from), from, bytes, to)
  {
    var bits := AllBits(bytes, to);
    var pad := Padding(|bits|, from);
    AllBitsOfGroups(bits + Zeros(pad), from);
    assert AllBits(Encode(bytes, to, from), from) == bits + Zeros(pad);
  }

  /** Encoding undoes decoding: only one spelling of a byte string is accepted. */
  lemma EncodeDecode(values: seq<nat>, from: nat, bytes: seq<nat>, to: nat)
    requires 1 <= from && Regroups(values, from, bytes, to)
    ensures Encode(bytes, to, from) == values
  {
    var tail: nat :| tail < from && tail < to && AllBits(values, from) == AllBits(bytes, to) + Zeros(tail);
    var bits := AllBits(bytes, to);
    assert |bits| + tail == from * |values|;
    DivModUnique(|bits| + tail, from, |values|, 0);
    PaddingUnique(|bits|, from, tail);
    GroupsOfAllBits(values, from, []);
    assert AllBits(values, from) + [] == AllBits(values, from);
  }

  lemma PaddingUnique(n: nat, width: nat, p: nat)
    requires width > 0 && p < width && (n + p) % width == 0
    ensures p == Padding(n, width)
  {
    var q := Padding(n, width);
    var a, b := (n + p) / width, (n + q) / width;
    assert n + p == a * width && n + q == b * width;
    assert (a - b) * width == p - q;
    if a > b {
      MulMono(1, a - b, width);
    } else if a < b {
      MulMono(a - b, -1, width);
    }
  }

  /** Accepted lists that decode to the same bytes are the same list. */
  lemma DecodeInjective(values: seq<nat>, values': seq<nat>, from: nat, bytes: seq<nat>, to: nat)
    requires 1 <= from && Regroups(values, from, bytes, to) && Regroups(values', from, bytes, to)
    ensures values == values'
  {
    EncodeDecode(values, from, bytes, to);
    EncodeDecode(values', from, bytes, to);
  }
}
