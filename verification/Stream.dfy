/**
Formatted output: `Stream::writef` of src/structures/stream.cpp, for a stream that takes everything written to it.

Numbers go through a buffer of 20 digits that is filled from the right and then stripped of leading zeros. The
specification is the usual positional numeral.
*/
module Stream {
  import opened Wrappers

  const BUFFER: nat := 20    // _NUM_BUFFER_SIZE

  type Base = b: int | b == 8 || b == 10 || b == 16 witness 10

  // ---- Numerals --------------------------------------------------------------------------

  /** `_num_to_str` */
  function Digit(value: int, upper: bool): (c: char)
    requires 0 <= value < 16
    ensures c == '0' <==> value == 0
    ensures DigitValue(c) == value
  {
    if value < 10 then (value + 0x30) as char
    else if upper then (value + 0x41 - 10) as char
    else (value + 0x61 - 10) as char
  }

  function DigitValue(c: char): int {
    if '0' <= c <= '9' then c as int - 0x30
    else if 'A' <= c <= 'F' then c as int - 0x41 + 10
    else if 'a' <= c <= 'f' then c as int - 0x61 + 10
    else 0
  }

  function ValueOf(s: string, b: Base): int {
    if s == [] then 0 else ValueOf(s[..|s| - 1], b) * b + DigitValue(s[|s| - 1])
  }

  function Numeral(v: nat, b: Base, upper: bool): (r: string)
    ensures r != []
  {
    if v < b then [Digit(v, upper)] else Numeral(v / b, b, upper) + [Digit(v % b, upper)]
  }

  lemma {:induction false} NumeralReadsBack(v: nat, b: Base, upper: bool)
    ensures ValueOf(Numeral(v, b, upper), b) == v
  {
    var s := Numeral(v, b, upper);
    if v < b {
      assert s[..0] == [] && ValueOf(s[..0], b) == 0;
    } else {
      NumeralReadsBack(v / b, b, upper);
      assert s[..|s| - 1] == Numeral(v / b, b, upper);
    }
  }

  lemma {:induction false} NoLeadingZero(v: nat, b: Base, upper: bool)
    ensures Numeral(v, b, upper)[0] == '0' <==> v == 0
  {
    if v >= b { NoLeadingZero(v / b, b, upper); }
  }

  // ---- The digit buffer ----------------------------------------------------------------------

  function Pow(b: Base, k: nat): (r: nat)
    ensures r > 0
  {
    if k == 0 then 1 else b * Pow(b, k - 1)
  }

  /** The last k digits, leading zeros included. */
  function Padded(v: nat, b: Base, upper: bool, k: nat): (r: string)
    ensures |r| == k
  {
    if k == 0 then [] else Padded(v / b, b, upper, k - 1) + [Digit(v % b, upper)]
  }

  function Zeros(k: nat): (r: string)
    ensures |r| == k && forall i :: 0 <= i < k ==> r[i] == '0'
  {
    seq(k, _ => '0')
  }

  lemma {:induction false} PaddedZero(b: Base, upper: bool, k: nat)
    ensures Padded(0, b, upper, k) == Zeros(k)
  {
    if k > 0 {
      PaddedZero(b, upper, k - 1);
      assert Zeros(k) == Zeros(k - 1) + ['0'];
    }
  }

  lemma QuotientBelow(v: nat, b: Base, m: nat)
    requires v < b * m
    ensures v / b < m
  {
    if b == 8 {
      assert v < 8 * m;
    } else if b == 10 {
      assert v < 10 * m;
    } else {
      assert v < 16 * m;
    }
  }

  lemma PowOne(b: Base)
    ensures Pow(b, 1) == b
  {
    assert Pow(b, 1) == b * Pow(b, 0);
  }

  /** A number that fits is its numeral behind zeros. */
  lemma {:induction false} PaddedIsNumeral(v: nat, b: Base, upper: bool, k: nat)
    requires k > 0 && v < Pow(b, k)
    ensures |Numeral(v, b, upper)| <= k
    ensures Padded(v, b, upper, k) == Zeros(k - |Numeral(v, b, upper)|) + Numeral(v, b, upper)
  {
    if v < b {
      PaddedZero(b, upper, k - 1);
      assert v / b == 0 && v % b == v;
    } else {
      PowOne(b);
      assert k > 1;
      QuotientBelow(v, b, Pow(b, k - 1));
      PaddedIsNumeral(v / b, b, upper, k - 1);
      var n := Numeral(v / b, b, upper);
      var d := [Digit(v % b, upper)];
      assert Zeros(k - 1 - |n|) + n + d == Zeros(k - 1 - |n|) + (n + d);
    }
  }

  lemma MultipleIsLarge(e: int, y: int)
    requires y > 0
    ensures (e >= 1 ==> e * y >= y) && (e <= -1 ==> e * y <= -y)
  {
    if e >= 1 { assert (e - 1) * y >= 0; }
    if e <= -1 { assert (-e - 1) * y >= 0; }
  }

  lemma DivModUnique(x: int, y: int, q: int, r: int)
    requires y > 0 && x == q * y + r && 0 <= r < y
    ensures x / y == q && x % y == r
  {
    var e := x / y - q;
    assert e * y == r - x % y;
    MultipleIsLarge(e, y);
    assert e == 0;
  }

  /** Reducing modulo a multiple of b first changes neither the last digit nor the digits before it, reduced. */
  lemma ModThenDiv(v: nat, b: Base, m: nat)
    requires m > 0
    ensures b * m > 0 && (v % (b * m)) % b == v % b && (v % (b * m)) / b == (v / b) % m
  {
    var q, r := v / b, v % b;
    var t, s := q / m, q % m;
    var low := b * s + r;
    assert q == m * t + s;
    Digits(v, b);
    Recompose(b, m, t, s, r);
    DivModUnique(v, b * m, t, low);
    DivModUnique(low, b, s, r);
  }

  lemma Digits(v: nat, b: Base)
    ensures v == b * (v / b) + v % b && 0 <= v % b < b
  {
  }

  lemma Recompose(b: Base, m: nat, t: int, s: int, r: int)
    requires 0 <= s < m && 0 <= r < b
    ensures b * (m * t + s) + r == t * (b * m) + (b * s + r) && 0 <= b * s + r < b * m && b * s == s * b
  {
    Associate(b, m, t);
    if b == 8 {
      assert 8 * s + r < 8 * m;
    } else if b == 10 {
      assert 10 * s + r < 10 * m;
    } else {
      assert 16 * s + r < 16 * m;
    }
  }

  /** The buffer keeps the number modulo its capacity. */
  lemma {:induction false} PaddedIsModulo(v: nat, b: Base, upper: bool, k: nat)
    ensures Padded(v, b, upper, k) == Padded(v % Pow(b, k), b, upper, k)
  {
    if k > 0 {
      var m := Pow(b, k - 1);
      ModThenDiv(v, b, m);
      PaddedIsModulo(v / b, b, upper, k - 1);
      var low := v % (b * m);
      assert Pow(b, k) == b * m;
      assert Padded(v, b, upper, k) == Padded(v / b, b, upper, k - 1) + [Digit(v % b, upper)];
      assert Padded(low, b, upper, k) == Padded(low / b, b, upper, k - 1) + [Digit(low % b, upper)];
    }
  }

  /** What `writef` prints for a number. */
  function Number(v: nat, b: Base, upper: bool): string {
    Numeral(v % Pow(b, BUFFER), b, upper)
  }

  lemma PaddedIsNumber(v: nat, b: Base, upper: bool)
    ensures |Number(v, b, upper)| <= BUFFER
    ensures Padded(v, b, upper, BUFFER) == Zeros(BUFFER - |Number(v, b, upper)|) + Number(v, b, upper)
  {
    PaddedIsModulo(v, b, upper, BUFFER);
    PaddedIsNumeral(v % Pow(b, BUFFER), b, upper, BUFFER);
  }

  /** Printing and reading undo each other exactly for the numbers that fit the buffer. */
  lemma NumberExactlyWhen(v: nat, b: Base, upper: bool)
    ensures ValueOf(Number(v, b, upper), b) == v <==> v < Pow(b, BUFFER)
    ensures Number(v, b, upper)[0] == '0' ==> Number(v, b, upper) == "0"
  {
    var m := Pow(b, BUFFER);
    ModSmall(v, m);
    NumeralReadsBack(v % m, b, upper);
    NoLeadingZero(v % m, b, upper);
    assert v % m == 0 ==> Numeral(v % m, b, upper) == [Digit(0, upper)];
    hide Pow, ValueOf, Numeral;
  }

  lemma ModSmall(v: nat, m: nat)
    requires m > 0
    ensures v % m == v <==> v < m
  {
    if v < m { DivModUnique(v, m, 0, v); }
  }

  /** Which 64-bit values fit: all of them in decimal and hexadecimal, those below 2^60 in octal. */
  lemma BufferCapacity(v: nat)
    requires v < 0x1_0000_0000_0000_0000
    ensures v < Pow(10, BUFFER) && v < Pow(16, BUFFER)
    ensures v < Pow(8, BUFFER) <==> v < 0x1000_0000_0000_0000
  {
    PowDoubles(10, 5);
    PowDoubles(10, 10);
    PowDoubles(16, 5);
    PowDoubles(16, 10);
    PowDoubles(8, 5);
    PowDoubles(8, 10);
    assert Pow(10, 5) == 100000 && Pow(16, 5) == 0x10_0000 && Pow(8, 5) == 0x8000;
  }

  /** `%llo` of 2^60 prints 0. */
  lemma OctalOverflows()
    ensures Number(0x1000_0000_0000_0000, 8, false) == "0"
  {
    BufferCapacity(0x1000_0000_0000_0000);
    BufferCapacity(0x0FFF_FFFF_FFFF_FFFF);
    var m := Pow(8, BUFFER);
    assert m == 0x1000_0000_0000_0000;
    hide Pow;
    assert 0x1000_0000_0000_0000 % m == 0;
  }

  lemma {:induction false} PowAdds(b: Base, i: nat, j: nat)
    ensures Pow(b, i + j) == Pow(b, i) * Pow(b, j)
  {
    if i > 0 {
      PowAdds(b, i - 1, j);
      assert Pow(b, i + j) == b * Pow(b, i - 1 + j) && Pow(b, i) == b * Pow(b, i - 1);
      hide Pow;
      Associate(b, Pow(b, i - 1), Pow(b, j));
    }
  }

  lemma Associate(x: int, y: int, z: int)
    ensures x * (y * z) == (x * y) * z
  {
  }

  lemma PowDoubles(b: Base, i: nat)
    ensures Pow(b, 2 * i) == Pow(b, i) * Pow(b, i)
  {
    PowAdds(b, i, i);
  }

  /** The buffer lacks its first k digits, which are those of val. */
  ghost predicate LeftToPad(v: nat, b: Base, upper: bool, val: nat, k: nat, done: string) {
    Padded(v, b, upper, BUFFER) == Padded(val, b, upper, k) + done
  }

  lemma PaddedAll(v: nat, b: Base, upper: bool)
    ensures LeftToPad(v, b, upper, v, BUFFER, "")
  {
    hide Padded;
  }

  lemma LeftToPadStep(v: nat, b: Base, upper: bool, val: nat, k: nat, done: string)
    requires k > 0 && LeftToPad(v, b, upper, val, k, done)
    ensures LeftToPad(v, b, upper, val / b, k - 1, [Digit(val % b, upper)] + done)
  {
    var front, d := Padded(val / b, b, upper, k - 1), [Digit(val % b, upper)];
    assert Padded(val, b, upper, k) == front + d;
    hide Padded;
    Regroup(front, d, done);
  }

  lemma PaddedNone(v: nat, b: Base, upper: bool, val: nat, done: string)
    requires LeftToPad(v, b, upper, val, 0, done)
    ensures done == Padded(v, b, upper, BUFFER)
  {
    assert Padded(val, b, upper, 0) == "";
    hide Padded;
    assert "" + done == done;
  }

  /** Filling the buffer from the right. */
  method FillBuffer(v: nat, b: Base, upper: bool, output: array<char>)
    requires output.Length == BUFFER
    modifies output
    ensures output[..] == Padded(v, b, upper, BUFFER)
  {
    var val := v;
    var i := BUFFER - 1;
    ghost var done := "";
    PaddedAll(v, b, upper);
    hide Padded, Digit, LeftToPad;
    while i >= 0
      invariant -1 <= i < BUFFER && 0 <= val && done == output[i + 1..]
      invariant LeftToPad(v, b, upper, val, i + 1, done)
      decreases i
    {
      LeftToPadStep(v, b, upper, val, i + 1, done);
      done := [Digit(val % b, upper)] + done;
      output[i] := Digit(val % b, upper);
      val := val / b;
      i := i - 1;
    }
    PaddedNone(v, b, upper, val, done);
    assert output[0..] == output[..];
  }

  /** Skipping leading zeros, all but the last digit. */
  method SkipZeros(output: array<char>, ghost zeros: nat, ghost number: string) returns (start: nat)
    requires output.Length == BUFFER && number != [] && zeros + |number| == BUFFER
    requires output[..] == Zeros(zeros) + number && (number[0] == '0' ==> |number| == 1)
    ensures start == zeros
  {
    assert forall k :: 0 <= k < BUFFER ==> output[k] == output[..][k];
    assert output[zeros] == number[0] && forall k :: 0 <= k < zeros ==> output[k] == '0';
    start := 0;
    while output[start] == '0' && start < BUFFER - 1
      invariant 0 <= start <= zeros
    {
      start := start + 1;
    }
  }

  /** The number part of a directive. */
  method FormatNumber(v: nat, b: Base, upper: bool) returns (text: string)
    ensures text == Number(v, b, upper)
  {
    var output := new char[BUFFER];
    FillBuffer(v, b, upper, output);
    PaddedIsNumber(v, b, upper);
    NumberExactlyWhen(v, b, upper);
    ghost var number := Number(v, b, upper);
    assert number != [];
    hide Number, Padded;
    var start := SkipZeros(output, BUFFER - |number|, number);
    text := output[start..];
    assert text == output[..][start..];
  }

  // ---- Signed numbers ---------------------------------------------------------------------------

  const TWO31: int := 0x8000_0000
  const TWO32: int := 0x1_0000_0000
  const TWO64: int := 0x1_0000_0000_0000_0000

  type Word = v: nat | v < 0x1_0000_0000
  type Quad = v: nat | v < 0x1_0000_0000_0000_0000

  /** `signed int vals = val` */
  function AsInt(val: nat): int {
    var low := val % TWO32;
    if low < TWO31 then low else low - TWO32
  }

  /** What is printed for `%d`: the sign is taken from the low 32 bits, the digits from all of them when it is positive. */
  function Signed(val: nat): string {
    if AsInt(val) < 0 then "-" + Number(-AsInt(val), 10, false) else Number(val, 10, false)
  }

  function IntOf(s: string): int {
    if s != [] && s[0] == '-' then -ValueOf(s[1..], 10) else ValueOf(s, 10)
  }

  lemma {:induction false} NumeralIsPlain(v: nat, b: Base, upper: bool)
    ensures Numeral(v, b, upper)[0] != '-'
  {
    if v >= b { NumeralIsPlain(v / b, b, upper); }
  }

  /** What a reader makes of the output. */
  lemma SignedReads(val: Quad)
    ensures IntOf(Signed(val)) == if AsInt(val) < 0 then AsInt(val) else val
  {
    var shown := if AsInt(val) < 0 then -AsInt(val) else val;
    BufferCapacity(shown);
    NumberExactlyWhen(shown, 10, false);
    NumeralIsPlain(shown % Pow(10, BUFFER), 10, false);
    hide Numeral, Pow, ValueOf;
    assert ("-" + Number(shown, 10, false))[1..] == Number(shown, 10, false);
  }

  /** Two's complement. */
  function Raw(v: int): int { if v < 0 then v + TWO64 else v }

  lemma LowHalf(v: int)
    requires -TWO64 <= v < 0
    ensures Raw(v) % TWO32 == v % TWO32
  {
    assert v + TWO64 == v + TWO32 * TWO32;
    DivModUnique(v + TWO64, TWO32, v / TWO32 + TWO32, v % TWO32);
  }

  /** `%d` and `%i` print every `int` above the least one. */
  lemma IntPrintsAndReads(v: int)
    requires -TWO31 < v < TWO31
    ensures IntOf(Signed(v % TWO32)) == v
  {
    SignedReads(v % TWO32);
    SmallLow(v);
    hide Signed, IntOf;
  }

  /** The low 32 bits of a 32-bit number. */
  lemma SmallLow(v: int)
    requires -TWO31 <= v < TWO31
    ensures v % TWO32 == (if v < 0 then v + TWO32 else v) && v % TWO32 % TWO32 == v % TWO32
  {
    var low := if v < 0 then v + TWO32 else v;
    DivModUnique(v, TWO32, if v < 0 then -1 else 0, low);
    DivModUnique(low, TWO32, 0, low);
  }

  /** `%lld` truncates before it looks at the sign. It prints v exactly when v is a 32-bit negative number, or is not
      negative and has bit 31 clear. The least `int` in the low half overflows and is left aside. */
  lemma LongPrintsExactlyWhen(v: int)
    requires -0x8000_0000_0000_0000 <= v < 0x8000_0000_0000_0000 && v % TWO32 != TWO31
    ensures IntOf(Signed(Raw(v))) == v <==> -TWO31 < v < 0 || (v >= 0 && v % TWO32 < TWO31)
  {
    SignedReads(Raw(v));
    if v < 0 { LowHalf(v); }
    if -TWO31 < v < 0 { SmallLow(v); }
    hide Signed, IntOf;
    var low := v % TWO32;
    assert AsInt(Raw(v)) == if low < TWO31 then low else low - TWO32;
  }

  /** 0x180000001, which is positive and has bit 31 set, is printed as a negative number. */
  lemma LongLosesItsSign()
    ensures IntOf(Signed(Raw(0x1_8000_0001))) == -0x7FFF_FFFF
  {
    hide IntOf, Signed;
    SignedReads(0x1_8000_0001);
  }

  // ---- Directives -----------------------------------------------------------------------------------

  /** What the caller passes: 32-bit and 64-bit numbers, strings, and places for `%n`. */
  datatype Arg = Word32(word: Word) | Word64(quad: Quad) | Text(text: string) | Slot(slot: nat)

  /** `Undefined`: the format runs off its end, an argument is missing or of the wrong kind, or the least `int` is negated. */
  datatype Printed = Printed(out: string, slots: map<nat, int>) | Undefined

  predicate IsNumber(c: char) {
    c == 'p' || c == 'x' || c == 'X' || c == 'o' || c == 'u' || c == 'd' || c == 'i'
  }

  /** The value a number directive takes, by its number of `l`s. */
  function Taken(args: seq<Arg>, ells: nat): Option<nat> {
    if args == [] then None
    else if ells < 2 then (if args[0].Word32? then Some(args[0].word) else None)
    else (if args[0].Word64? then Some(args[0].quad) else None)
  }

  function NumberText(c: char, val: nat): string {
    if c == 'd' || c == 'i' then Signed(val)
    else if c == 'x' then Number(val, 16, false)
    else if c == 'X' then Number(val, 16, true)
    else if c == 'p' then "0x" + Number(val, 16, false)
    else if c == 'o' then Number(val, 8, false)
    else Number(val, 10, false)
  }

  /** Past the `l`s. */
  function SkipElls(fmt: string, p: nat): (q: nat)
    requires p <= |fmt|
    ensures p <= q <= |fmt|
    decreases |fmt| - p
  {
    if p < |fmt| && fmt[p] == 'l' then SkipElls(fmt, p + 1) else p
  }

  /** The output, given what has been printed so far: `%n` stores the length of that. */
  function Render(fmt: string, p: nat, args: seq<Arg>, out: string, slots: map<nat, int>): Printed
    requires p <= |fmt|
    decreases |fmt| - p
  {
    if p == |fmt| then Printed(out, slots)
    else if fmt[p] != '%' then Render(fmt, p + 1, args, out + [fmt[p]], slots)
    else
      var q := SkipElls(fmt, p + 1);
      if q == |fmt| then Undefined else Directive(fmt, q, q - (p + 1), args, out, slots)
  }

  function Directive(fmt: string, q: nat, ells: nat, args: seq<Arg>, out: string, slots: map<nat, int>): Printed
    requires q < |fmt|
    decreases |fmt| - q
  {
    var c := fmt[q];
    if c == '%' then Render(fmt, q + 1, args, out + "%", slots)
    else if c == 'n' then
      if args == [] || !args[0].Slot? then Undefined
      else Render(fmt, q + 1, args[1..], out, slots[args[0].slot := |out|])
    else if c == 's' then
      if args == [] || !args[0].Text? then Undefined
      else Render(fmt, q + 1, args[1..], out + args[0].text, slots)
    else if IsNumber(c) then
      match Taken(args, ells)
      case None => Undefined
      case Some(val) =>
        if (c == 'd' || c == 'i') && AsInt(val) == -TWO31 then Undefined
        else Render(fmt, q + 1, args[1..], out + NumberText(c, val), slots)
    else Render(fmt, q + 1, args, out, slots)
  }

  function Formatted(fmt: string, args: seq<Arg>): Printed {
    Render(fmt, 0, args, [], map[])
  }

  lemma Regroup(a: string, b: string, c: string)
    ensures a + (b + c) == a + b + c
  {
  }

  // ---- What a format prints, piece by piece --------------------------------------------------------------

  /** A piece of a format together with what the caller passes for it. */
  datatype Item =
    | Letter(c: char)
    | PercentSign
    | Num(c: char, ells: nat, val: nat)
    | Words(text: string)
    | Place(slot: nat)
    | Odd(c: char, ells: nat)     // a conversion the code does not know

  predicate ItemOk(x: Item) {
    match x
    case Letter(c) => c != '%'
    case PercentSign => true
    case Num(c, ells, val) =>
      && IsNumber(c) && (if ells < 2 then val < 0x1_0000_0000 else val < 0x1_0000_0000_0000_0000)
      && (c == 'd' || c == 'i' ==> AsInt(val) != -TWO31)
    case Words(_) => true
    case Place(_) => true
    case Odd(c, _) => !IsNumber(c) && c != '%' && c != 'n' && c != 's' && c != 'l'
  }

  function Ells(k: nat): string { seq(k, _ => 'l') }

  function FormatOf(x: Item): string {
    match x
    case Letter(c) => [c]
    case PercentSign => "%%"
    case Num(c, ells, _) => "%" + Ells(ells) + [c]
    case Words(_) => "%s"
    case Place(_) => "%n"
    case Odd(c, ells) => "%" + Ells(ells) + [c]
  }

  function ArgsFor(x: Item): seq<Arg>
    requires ItemOk(x)
  {
    match x
    case Num(_, ells, val) => if ells < 2 then [Word32(val)] else [Word64(val)]
    case Words(text) => [Text(text)]
    case Place(slot) => [Slot(slot)]
    case _ => []
  }

  predicate AllOk(xs: seq<Item>) { forall i :: 0 <= i < |xs| ==> ItemOk(xs[i]) }

  function Fmt(xs: seq<Item>): string { if xs == [] then [] else FormatOf(xs[0]) + Fmt(xs[1..]) }

  function Args(xs: seq<Item>): seq<Arg>
    requires AllOk(xs)
  {
    if xs == [] then [] else assert ItemOk(xs[0]); ArgsFor(xs[0]) + Args(xs[1..])
  }

  predicate DigitsOf(t: string, upper: bool) {
    forall i :: 0 <= i < |t| ==> '0' <= t[i] <= '9' || (if upper then 'A' <= t[i] <= 'F' else 'a' <= t[i] <= 'f')
  }

  /** t is v written in base b, as far as twenty digits go, without superfluous zeros and in the right case. */
  predicate Writes(t: string, v: nat, b: Base, upper: bool) {
    t != [] && ValueOf(t, b) == v % Pow(b, BUFFER) && DigitsOf(t, upper) && (t[0] == '0' ==> |t| == 1)
  }

  /** What each piece must print. */
  predicate TextOk(x: Item, t: string) {
    match x
    case Letter(c) => t == [c]
    case PercentSign => t == "%"
    case Words(text) => t == text
    case Place(_) => t == []
    case Odd(_, _) => t == []
    case Num(c, _, val) =>
      if c == 'd' || c == 'i' then IntOf(t) == (if AsInt(val) < 0 then AsInt(val) else val)
      else if c == 'p' then |t| > 2 && t[0] == '0' && t[1] == 'x' && Writes(t[2..], val, 16, false)
      else if c == 'x' then Writes(t, val, 16, false)
      else if c == 'X' then Writes(t, val, 16, true)
      else if c == 'o' then Writes(t, val, 8, false)
      else Writes(t, val, 10, false)
  }

  lemma {:induction false} NumeralDigits(v: nat, b: Base, upper: bool)
    ensures DigitsOf(Numeral(v, b, upper), upper)
    ensures Numeral(v, b, upper)[0] == '0' ==> |Numeral(v, b, upper)| == 1
  {
    NoLeadingZero(v, b, upper);
    if v >= b { NumeralDigits(v / b, b, upper); }
  }

  lemma NumberWrites(v: nat, b: Base, upper: bool)
    ensures Writes(Number(v, b, upper), v, b, upper)
  {
    NumeralReadsBack(v % Pow(b, BUFFER), b, upper);
    NumeralDigits(v % Pow(b, BUFFER), b, upper);
  }

  lemma NumberTextOk(c: char, ells: nat, val: nat)
    requires ItemOk(Num(c, ells, val))
    ensures TextOk(Num(c, ells, val), NumberText(c, val))
  {
    SignedReads(val);
    NumberWrites(val, 16, false);
    NumberWrites(val, 16, true);
    NumberWrites(val, 8, false);
    NumberWrites(val, 10, false);
    hide Number, Writes, Signed, IntOf;
    assert ("0x" + Number(val, 16, false))[2..] == Number(val, 16, false);
    NumberNotEmpty(val, 16, false);
  }

  lemma NumberNotEmpty(v: nat, b: Base, upper: bool)
    ensures Number(v, b, upper) != []
  {
  }

  function Concat(ts: seq<string>): string { if ts == [] then [] else ts[0] + Concat(ts[1..]) }

  /** What the places for `%n` hold: how much was printed before each, the last one counting. */
  function SlotsAfter(xs: seq<Item>, ts: seq<string>, before: nat, slots: map<nat, int>): map<nat, int>
    requires |xs| == |ts|
  {
    if xs == [] then slots
    else SlotsAfter(xs[1..], ts[1..], before + |ts[0]|, if xs[0].Place? then slots[xs[0].slot := before] else slots)
  }

  lemma {:induction false} EllsSkipped(fmt: string, p: nat, k: nat)
    requires p + k < |fmt| && (forall i :: p <= i < p + k ==> fmt[i] == 'l') && fmt[p + k] != 'l'
    ensures SkipElls(fmt, p) == p + k
    decreases k
  {
    if k > 0 { EllsSkipped(fmt, p + 1, k - 1); }
  }

  lemma PieceAt(fmt: string, p: nat, f: string, rest: string)
    requires p <= |fmt| && fmt[p..] == f + rest
    ensures p + |f| <= |fmt| && fmt[p + |f|..] == rest && forall i :: 0 <= i < |f| ==> fmt[p + i] == f[i]
  {
    assert fmt[p..][|f|..] == rest && fmt[p..][|f|..] == fmt[p + |f|..];
    forall i | 0 <= i < |f| ensures fmt[p + i] == f[i] { assert fmt[p..][i] == f[i]; }
  }

  /** A directive: past the percent sign and the `l`s. */
  lemma RenderDirective(fmt: string, p: nat, c: char, ells: nat, args: seq<Arg>, out: string, slots: map<nat, int>)
    requires c != 'l' && p + ells + 2 <= |fmt|
    requires var f := "%" + Ells(ells) + [c]; forall i :: 0 <= i < |f| ==> fmt[p + i] == f[i]
    ensures fmt[p + 1 + ells] == c
    ensures Render(fmt, p, args, out, slots) == Directive(fmt, p + 1 + ells, ells, args, out, slots)
  {
    DirectiveAt(fmt, p, c, ells);
    hide Directive, SkipElls;
  }

  lemma ArgsDrop(a: seq<Arg>, args: seq<Arg>)
    ensures (a + args)[|a|..] == args && (|a| == 1 ==> (a + args)[0] == a[0] && (a + args)[1..] == args)
    ensures a == [] ==> a + args == args
  {
  }

  /** One piece: its text, its place, and on to the next. */
  lemma RenderItem(fmt: string, p: nat, x: Item, rest: string, args: seq<Arg>, out: string, slots: map<nat, int>)
    returns (t: string)
    requires p <= |fmt| && ItemOk(x) && fmt[p..] == FormatOf(x) + rest
    ensures TextOk(x, t) && p + |FormatOf(x)| <= |fmt| && fmt[p + |FormatOf(x)|..] == rest
    ensures Render(fmt, p, ArgsFor(x) + args, out, slots)
         == Render(fmt, p + |FormatOf(x)|, args, out + t, if x.Place? then slots[x.slot := |out|] else slots)
  {
    PieceAt(fmt, p, FormatOf(x), rest);
    ArgsDrop(ArgsFor(x), args);
    match x
    case Letter(c) => t := RenderLetter(fmt, p, c, args, out, slots);
    case PercentSign =>
      Short('%');
      RenderDirective(fmt, p, '%', 0, args, out, slots);
      t := "%";
      hide Render;
    case Words(text) =>
      Short('s');
      RenderDirective(fmt, p, 's', 0, ArgsFor(x) + args, out, slots);
      t := text;
      hide Render;
    case Place(slot) =>
      Short('n');
      RenderDirective(fmt, p, 'n', 0, ArgsFor(x) + args, out, slots);
      t := [];
      NothingMore(out);
      hide Render;
    case Num(c, ells, val) =>
      t := RenderNum(fmt, p, c, ells, val, args, out, slots);
      hide Render, TextOk;
    case Odd(c, ells) =>
      RenderDirective(fmt, p, c, ells, args, out, slots);
      t := [];
      NothingMore(out);
      hide Render;
  }

  lemma Short(c: char)
    ensures "%" + Ells(0) + [c] == ['%', c]
  {
  }

  lemma NothingMore(out: string)
    ensures out + [] == out
  {
  }

  lemma RenderLetter(fmt: string, p: nat, c: char, args: seq<Arg>, out: string, slots: map<nat, int>) returns (t: string)
    requires p < |fmt| && c != '%' && fmt[p + 0] == c
    ensures t == [c] && Render(fmt, p, [] + args, out, slots) == Render(fmt, p + 1, args, out + t, slots)
  {
    assert [] + args == args;
    t := [c];
  }

  lemma RenderNum(fmt: string, p: nat, c: char, ells: nat, val: nat, args: seq<Arg>, out: string, slots: map<nat, int>)
    returns (t: string)
    requires ItemOk(Num(c, ells, val)) && p + ells + 2 <= |fmt|
    requires var f := "%" + Ells(ells) + [c]; forall i :: 0 <= i < |f| ==> fmt[p + i] == f[i]
    ensures TextOk(Num(c, ells, val), t)
    ensures Render(fmt, p, ArgsFor(Num(c, ells, val)) + args, out, slots) == Render(fmt, p + ells + 2, args, out + t, slots)
  {
    var all := ArgsFor(Num(c, ells, val)) + args;
    RenderDirective(fmt, p, c, ells, all, out, slots);
    ArgsDrop(ArgsFor(Num(c, ells, val)), args);
    NumberTextOk(c, ells, val);
    t := NumberText(c, val);
    hide Render, NumberText, TextOk;
    assert Taken(all, ells) == Some(val);
  }

  lemma DirectiveAt(fmt: string, p: nat, c: char, ells: nat)
    requires c != 'l' && p + ells + 2 <= |fmt|
    requires var f := "%" + Ells(ells) + [c]; forall i :: 0 <= i < |f| ==> fmt[p + i] == f[i]
    ensures fmt[p] == '%' && SkipElls(fmt, p + 1) == p + 1 + ells && fmt[p + 1 + ells] == c
  {
    var f := "%" + Ells(ells) + [c];
    assert f[0] == '%' && f[1 + ells] == c && |f| == ells + 2;
    assert fmt[p + 0] == f[0] && fmt[p + (1 + ells)] == f[1 + ells];
    forall i | p + 1 <= i < p + 1 + ells ensures fmt[i] == 'l' {
      assert fmt[p + (i - p)] == f[i - p];
    }
    EllsSkipped(fmt, p + 1, ells);
  }

  lemma {:induction false} RenderItems(fmt: string, p: nat, xs: seq<Item>, out: string, slots: map<nat, int>)
    returns (ts: seq<string>)
    requires p <= |fmt| && AllOk(xs) && fmt[p..] == Fmt(xs)
    ensures |ts| == |xs| && forall i :: 0 <= i < |xs| ==> TextOk(xs[i], ts[i])
    ensures Render(fmt, p, Args(xs), out, slots) == Printed(out + Concat(ts), SlotsAfter(xs, ts, |out|, slots))
    decreases |xs|
  {
    if xs == [] {
      ts := [];
      assert out + Concat(ts) == out;
    } else {
      var x, rest := xs[0], xs[1..];
      assert ItemOk(x);
      hide Render, TextOk, FormatOf, ArgsFor, ItemOk;
      var t := RenderItem(fmt, p, x, Fmt(rest), Args(rest), out, slots);
      var more := RenderItems(fmt, p + |FormatOf(x)|, rest, out + t, if x.Place? then slots[x.slot := |out|] else slots);
      ts := [t] + more;
      assert ts[0] == t && ts[1..] == more;
      hide *;
      JoinTexts(xs, ts, out, slots, t, more);
    }
  }

  lemma JoinTexts(xs: seq<Item>, ts: seq<string>, out: string, slots: map<nat, int>, t: string, more: seq<string>)
    requires xs != [] && |ts| == |xs| && ts[0] == t && ts[1..] == more
    requires TextOk(xs[0], t) && forall i :: 0 <= i < |more| ==> TextOk(xs[1..][i], more[i])
    ensures out + Concat(ts) == (out + t) + Concat(more)
    ensures forall i :: 0 <= i < |xs| ==> TextOk(xs[i], ts[i])
    ensures SlotsAfter(xs, ts, |out|, slots)
         == SlotsAfter(xs[1..], more, |out + t|, if xs[0].Place? then slots[xs[0].slot := |out|] else slots)
  {
    hide TextOk;
    Regroup(out, t, Concat(more));
    forall i | 0 <= i < |xs| ensures TextOk(xs[i], ts[i]) {
      if i > 0 { assert xs[i] == xs[1..][i - 1] && ts[i] == more[i - 1]; }
    }
  }

  /** `writef` of any format and the arguments for it prints, one after the other: letters and `%%` as they are, strings,
      numbers in their base, case and sign, nothing for a conversion it does not know; and every `%n` gets how much was
      printed before it. */
  lemma FormatPrints(xs: seq<Item>) returns (ts: seq<string>)
    requires AllOk(xs)
    ensures |ts| == |xs| && forall i :: 0 <= i < |xs| ==> TextOk(xs[i], ts[i])
    ensures Formatted(Fmt(xs), Args(xs)) == Printed(Concat(ts), SlotsAfter(xs, ts, 0, map[]))
  {
    assert Fmt(xs)[0..] == Fmt(xs);
    ts := RenderItems(Fmt(xs), 0, xs, [], map[]);
    assert [] + Concat(ts) == Concat(ts);
  }

  // ---- The code ---------------------------------------------------------------------------------------

  class Writer {
    var sink: string           // what the underlying stream has been given
    var written: int
    var slots: map<nat, int>

    method Write(text: string)
      modifies this`sink
      ensures sink == old(sink) + text
    {
      sink := sink + text;
    }

    method WriteNumber(c: char, v: nat)
      requires IsNumber(c) && !((c == 'd' || c == 'i') && AsInt(v) == -TWO31)
      modifies this`sink, this`written
      ensures sink == old(sink) + NumberText(c, v)
      ensures written - old(written) == |sink| - |old(sink)|
    {
      hide Number;
      var val := v;
      ghost var sign := "";
      if c == 'p' {
        Write("0x");
        written := written + 2;
        sign := "0x";
      }
      var base: Base := 10;
      if c == 'x' || c == 'X' || c == 'p' { base := 16; }
      if c == 'o' { base := 8; }
      if c == 'd' || c == 'i' {
        var vals := AsInt(val);
        if vals < 0 {
          val := -vals;
          Write("-");
          written := written + 1;
          sign := "-";
        }
      }
      var digits := FormatNumber(val, base, c == 'X');
      assert NumberText(c, v) == sign + digits by { assert "" + digits == digits; }
      hide NumberText;
      Regroup(old(sink), sign, digits);
      assert sink == old(sink) + sign by { assert old(sink) + "" == old(sink); }
      Write(digits);
      written := written + |digits|;
    }

    /** `writef` */
    method Writef(fmt: string, args0: seq<Arg>)
      requires Formatted(fmt, args0).Printed? && sink == [] && slots == map[]
      modifies this
      ensures Printed(sink, slots) == Formatted(fmt, args0)
      ensures written == |sink|
    {
      var p, args := 0, args0;
      written := 0;
      while p < |fmt|
        invariant p <= |fmt| && written == |sink|
        invariant Formatted(fmt, args0) == Render(fmt, p, args, sink, slots)
        decreases |fmt| - p
      {
        var cur := fmt[p];
        if cur == '%' {
          var length := 0;
          p := p + 1;
          ghost var start := p;
          while p < |fmt| && fmt[p] == 'l'
            invariant start <= p <= |fmt| && length == (if p - start > 2 then 2 else p - start)
            invariant SkipElls(fmt, start) == SkipElls(fmt, p)
          {
            length := length + 1;
            if length > 2 { length := 2; }
            p := p + 1;
          }
          args := RunDirective(fmt, p, length, p - start, args);
        } else {
          Write([cur]);
          written := written + 1;
        }
        p := p + 1;
      }
    }

    /** The `switch`; `ells` is the number of `l`s that `length` was made of. */
    method RunDirective(fmt: string, q: nat, length: nat, ghost ells: nat, args: seq<Arg>) returns (rest: seq<Arg>)
      requires q < |fmt| && Directive(fmt, q, ells, args, sink, slots).Printed?
      requires length == (if ells > 2 then 2 else ells) && written == |sink|
      modifies this
      ensures written == |sink|
      ensures Render(fmt, q + 1, rest, sink, slots) == Directive(fmt, q, ells, args, old(sink), old(slots))
    {
      rest := args;
      var c := fmt[q];
      if c == '%' {
        Write("%");
        written := written + 1;
      } else if c == 'n' {
        slots := slots[args[0].slot := written];
        rest := args[1..];
      } else if c == 's' {
        Write(args[0].text);
        written := written + |args[0].text|;
        rest := args[1..];
      } else if IsNumber(c) {
        var val := if length == 2 then args[0].quad else args[0].word;
        WriteNumber(c, val);
        rest := args[1..];
      }
    }
  }
}
