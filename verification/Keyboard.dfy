/**
The scancode decoder of src/hw/ps2keyboard.cpp: one byte per interrupt, prefixes remembered in fields, a 16-bit key code
printed for every complete event.

The 16-bit `key` is kept by its parts: the two bits set with `|=` and the low seven bits, which are only ever set and
cleared within one call.
*/
module Keyboard {
  import opened Wrappers

  type Byte = b: int | 0 <= b < 0x100

  const MASK_RELEASE: int := 0x8000
  const MASK_EXTENDED: int := 0x0080

  const ERR_1: Byte := 0x00
  const PASS: Byte := 0xaa
  const ECHO: Byte := 0xee
  const ACK: Byte := 0xfa
  const ST_FAIL_1: Byte := 0xfc
  const ST_FAIL_2: Byte := 0xfd
  const RESEND: Byte := 0xfe
  const ERR_2: Byte := 0xff

  datatype Code = Code(low: Byte, extended: bool, release: bool) {
    function Number(): int {
      low + (if extended then MASK_EXTENDED else 0) + (if release then MASK_RELEASE else 0)
    }
  }

  const NO_KEY := Code(0, false, false)

  /** The number printed determines the code. */
  lemma NumberIsInjective(a: Code, b: Code)
    requires a.low < 0x80 && b.low < 0x80 && a.Number() == b.Number()
    ensures a == b
  {
  }

  /** The driver's fields. `waiting` is `last_input == -1`: a command has been sent and its answer not yet read.
      `out` is what has been printed. */
  datatype State = State(key: Code, doubleCode: bool, lastKey: Byte, waiting: bool, answer: Byte, selfTestPassed: bool,
                         out: seq<Code>)

  /** Bytes that never belong to a key. */
  predicate Noise(b: Byte) {
    b == ERR_1 || b == ERR_2 || b == ECHO || b == ACK || b == RESEND || b == ST_FAIL_1 || b == ST_FAIL_2
  }

  /** A byte of a key, after the substitution for F7. */
  function Literal(s: State, b: Byte): State {
    if s.doubleCode then s.(lastKey := b, doubleCode := false)
    else if s.lastKey != 0 && !(s.lastKey == 0x14 && b == 0x77) then s.(key := NO_KEY, lastKey := 0)
    else
      var low := if s.lastKey != 0 then 0x0f else b;
      s.(key := NO_KEY, lastKey := 0, out := s.out + [s.key.(low := low)])
  }

  /** `handle` */
  function Step(s: State, b: Byte): State {
    if b == PASS then s.(selfTestPassed := true)
    else if s.waiting then s.(waiting := false, answer := b)
    else if Noise(b) then s
    else
      var b := if b == 0x83 then 0x02 else b;
      if b == 0xe0 then s.(key := s.key.(extended := true))
      else if b == 0xe1 then s.(doubleCode := true)
      else if b == 0xf0 then s.(key := s.key.(release := true))
      else if b < 0x80 then Literal(s, b)
      else s
  }

  function Feed(s: State, bytes: seq<Byte>): State
    decreases |bytes|
  {
    if bytes == [] then s else Feed(Step(s, bytes[0]), bytes[1..])
  }

  // ---- Events ----------------------------------------------------------------------------

  /** A key, its place in the extended set, press or release; or the pause key. 0x83 is F7. */
  datatype Event = Key(code: Byte, extended: bool, release: bool) | Pause(release: bool)

  predicate IsKey(code: Byte) { 0 < code < 0x80 || code == 0x83 }

  predicate EventOk(e: Event) { e.Key? ==> IsKey(e.code) }

  /** What scancode set 2 sends. */
  function Encode(e: Event): seq<Byte> {
    match e
    case Key(code, extended, release) => (if extended then [0xe0] else []) + (if release then [0xf0] else []) + [code]
    case Pause(release) => if release then [0xe1, 0xf0, 0x14, 0xf0, 0x77] else [0xe1, 0x14, 0x77]
  }

  /** What the driver should print for it. */
  function CodeOf(e: Event): Code {
    match e
    case Key(code, extended, release) => Code(if code == 0x83 then 0x02 else code, extended, release)
    case Pause(release) => Code(0x0f, false, release)
  }

  /** Between events: no prefix pending. */
  predicate Idle(s: State) {
    s.key == NO_KEY && !s.doubleCode && s.lastKey == 0 && !s.waiting
  }

  lemma {:induction false} FeedAppend(s: State, a: seq<Byte>, b: seq<Byte>)
    ensures Feed(s, a + b) == Feed(Feed(s, a), b)
    decreases |a|
  {
    if a == [] {
      assert [] + b == b;
    } else {
      assert (a + b)[1..] == a[1..] + b;
      FeedAppend(Step(s, a[0]), a[1..], b);
    }
  }

  lemma FeedNothing(s: State)
    ensures Feed(s, []) == s
  {
  }

  lemma Regroup(a: seq<Code>, b: seq<Code>, c: seq<Code>)
    ensures a + (b + c) == a + b + c
  {
  }

  lemma FeedOne(s: State, b: Byte)
    ensures Feed(s, [b]) == Step(s, b)
  {
    assert [b][1..] == [];
  }

  lemma FeedCons(s: State, b: Byte, rest: seq<Byte>)
    ensures Feed(s, [b] + rest) == Feed(Step(s, b), rest)
  {
    assert ([b] + rest)[1..] == rest;
  }

  lemma DecodeKey(s: State, e: Event)
    requires Idle(s) && EventOk(e) && e.Key?
    ensures Feed(s, Encode(e)) == s.(out := s.out + [CodeOf(e)])
  {
    var a: seq<Byte> := if e.extended then [0xe0] else [];
    var b: seq<Byte> := if e.release then [0xf0] else [];
    var s1 := s.(key := Code(0, e.extended, false));
    assert Feed(s, a) == s1 by { FeedOne(s, 0xe0); }
    var s2 := s.(key := Code(0, e.extended, e.release));
    assert Feed(s1, b) == s2 by { FeedOne(s1, 0xf0); }
    FeedAppend(s, a, b);
    FeedAppend(s, a + b, [e.code]);
    FeedOne(s2, e.code);
  }

  lemma DecodePause(s: State, release: bool)
    requires Idle(s)
    ensures Feed(s, Encode(Pause(release))) == s.(out := s.out + [CodeOf(Pause(release))])
  {
    var s1 := s.(doubleCode := true);
    assert Step(s, 0xe1) == s1;
    if release {
      var s2 := s1.(key := Code(0, false, true));
      var s3 := s2.(lastKey := 0x14, doubleCode := false);
      assert Step(s1, 0xf0) == s2 && Step(s2, 0x14) == s3 && Step(s3, 0xf0) == s3;
      assert Step(s3, 0x77) == s.(out := s.out + [Code(0x0f, false, true)]);
      hide Feed, Step;
      FeedCons(s, 0xe1, [0xf0, 0x14, 0xf0, 0x77]);
      FeedCons(s1, 0xf0, [0x14, 0xf0, 0x77]);
      FeedCons(s2, 0x14, [0xf0, 0x77]);
      FeedCons(s3, 0xf0, [0x77]);
      FeedOne(s3, 0x77);
    } else {
      var s2 := s1.(lastKey := 0x14, doubleCode := false);
      assert Step(s1, 0x14) == s2;
      assert Step(s2, 0x77) == s.(out := s.out + [Code(0x0f, false, false)]);
      hide Feed, Step;
      FeedCons(s, 0xe1, [0x14, 0x77]);
      FeedCons(s1, 0x14, [0x77]);
      FeedOne(s2, 0x77);
    }
  }

  /** One event: its code is printed and nothing is left pending. */
  lemma DecodeOne(s: State, e: Event)
    requires Idle(s) && EventOk(e)
    ensures Feed(s, Encode(e)) == s.(out := s.out + [CodeOf(e)])
  {
    if e.Key? { DecodeKey(s, e); } else { DecodePause(s, e.release); }
  }

  function EncodeAll(es: seq<Event>): seq<Byte> {
    if es == [] then [] else Encode(es[0]) + EncodeAll(es[1..])
  }

  function Codes(es: seq<Event>): seq<Code> {
    if es == [] then [] else [CodeOf(es[0])] + Codes(es[1..])
  }

  /** Fed the encoding of any sequence of events, the driver prints exactly their codes, in order, and is idle again. */
  lemma {:induction false} DecodeUndoesEncode(s: State, es: seq<Event>)
    requires Idle(s) && (forall i :: 0 <= i < |es| ==> EventOk(es[i]))
    ensures Feed(s, EncodeAll(es)) == s.(out := s.out + Codes(es))
    decreases |es|
  {
    hide Feed, Step, Encode, CodeOf;
    if es == [] {
      FeedNothing(s);
      assert s.out + [] == s.out;
    } else {
      var s1 := s.(out := s.out + [CodeOf(es[0])]);
      DecodeOne(s, es[0]);
      FeedAppend(s, Encode(es[0]), EncodeAll(es[1..]));
      DecodeUndoesEncode(s1, es[1..]);
      assert Codes(es) == [CodeOf(es[0])] + Codes(es[1..]);
      hide *;
      Regroup(s.out, [CodeOf(es[0])], Codes(es[1..]));
    }
  }

  // ---- Telling events apart -------------------------------------------------------------------

  /** Keys whose code is also the code of F7 or of the pause key. */
  predicate Shared(e: Event) {
    e.Key? && (e.code == 0x02 || (e.code == 0x0f && !e.extended))
  }

  /** f is the key whose code e borrows. */
  predicate Borrows(e: Event, f: Event) {
    || (e.Key? && e.code == 0x83 && f == e.(code := 0x02))
    || (e.Pause? && f == Key(0x0f, false, e.release))
  }

  /** Two events print the same code exactly when they are the same, or one of them is F7 or pause and the other the key
      whose code it borrows. */
  lemma SameCodeExactlyWhen(e: Event, f: Event)
    requires EventOk(e) && EventOk(f)
    ensures CodeOf(e) == CodeOf(f) <==> e == f || Borrows(e, f) || Borrows(f, e)
  {
  }

  /** As long as those two keys do not occur, the printed codes determine the events. */
  lemma {:induction false} EventsRecoverable(es: seq<Event>, fs: seq<Event>)
    requires forall i :: 0 <= i < |es| ==> EventOk(es[i]) && !Shared(es[i])
    requires forall i :: 0 <= i < |fs| ==> EventOk(fs[i]) && !Shared(fs[i])
    requires Codes(es) == Codes(fs)
    ensures es == fs
    decreases |es|
  {
    if es == [] || fs == [] {
      assert es == [] && fs == [];
    } else {
      assert Codes(es)[0] == CodeOf(es[0]) && Codes(fs)[0] == CodeOf(fs[0]);
      assert Codes(es)[1..] == Codes(es[1..]) && Codes(fs)[1..] == Codes(fs[1..]);
      SameCodeExactlyWhen(es[0], fs[0]);
      assert es[0] == fs[0];
      EventsRecoverable(es[1..], fs[1..]);
      assert es == [es[0]] + es[1..] && fs == [fs[0]] + fs[1..];
    }
  }

  // ---- Interference --------------------------------------------------------------------------

  function Denoised(bytes: seq<Byte>): seq<Byte> {
    if bytes == [] then []
    else (if Noise(bytes[0]) then [] else [bytes[0]]) + Denoised(bytes[1..])
  }

  /** The byte a waiting driver takes for the answer to its command: the first that is not `PASS`. */
  function Answer(bytes: seq<Byte>): Option<Byte> {
    if bytes == [] then None else if bytes[0] == PASS then Answer(bytes[1..]) else Some(bytes[0])
  }

  /** Status bytes of the controller may come anywhere, even inside a key, without changing what is decoded, as long as no
      answer to a command is awaited. */
  lemma {:induction false} NoiseDoesNotMatter(s: State, bytes: seq<Byte>)
    requires !s.waiting
    ensures Feed(s, bytes) == Feed(s, Denoised(bytes))
    decreases |bytes|
  {
    if bytes != [] {
      var b := bytes[0];
      NoiseDoesNotMatter(Step(s, b), bytes[1..]);
      if !Noise(b) { FeedCons(s, b, Denoised(bytes[1..])); } else { assert [] + Denoised(bytes[1..]) == Denoised(bytes[1..]); }
    }
  }

  /** The answer is taken once. */
  lemma {:induction false} AnswerStays(s: State, bytes: seq<Byte>)
    requires !s.waiting
    ensures Feed(s, bytes).answer == s.answer && !Feed(s, bytes).waiting
    decreases |bytes|
  {
    if bytes != [] { AnswerStays(Step(s, bytes[0]), bytes[1..]); }
  }

  /** What the answer is, after all these bytes. */
  lemma {:induction false} AnswerIs(s: State, bytes: seq<Byte>)
    requires s.waiting
    ensures var t := Feed(s, bytes);
            match Answer(bytes) case None => t.waiting case Some(b) => !t.waiting && t.answer == b
    decreases |bytes|
  {
    if bytes != [] {
      if bytes[0] == PASS { AnswerIs(Step(s, PASS), bytes[1..]); } else { AnswerStays(Step(s, bytes[0]), bytes[1..]); }
    }
  }

  lemma {:induction false} NoNoiseLeft(bytes: seq<Byte>)
    ensures Answer(Denoised(bytes)).Some? ==> !Noise(Answer(Denoised(bytes)).value)
  {
    if bytes != [] {
      NoNoiseLeft(bytes[1..]);
      var rest := Denoised(bytes[1..]);
      if Noise(bytes[0]) { assert [] + rest == rest; } else { assert ([bytes[0]] + rest)[1..] == rest; }
    }
  }

  /** They change it exactly when the driver waits for an answer and takes one of them for it. */
  lemma {:induction false} NoiseMattersExactlyWhen(s: State, bytes: seq<Byte>)
    ensures Feed(s, bytes) != Feed(s, Denoised(bytes)) <==> s.waiting && Answer(bytes).Some? && Noise(Answer(bytes).value)
    decreases |bytes|
  {
    if !s.waiting {
      NoiseDoesNotMatter(s, bytes);
    } else if bytes != [] {
      var b, rest := bytes[0], bytes[1..];
      if Noise(b) {
        AnswerIs(s, bytes);
        AnswerIs(s, Denoised(bytes));
        NoNoiseLeft(bytes);
      } else {
        FeedCons(s, b, Denoised(rest));
        if b == PASS { NoiseMattersExactlyWhen(Step(s, b), rest); } else { NoiseDoesNotMatter(Step(s, b), rest); }
      }
    }
  }

  /** So any stream that is an encoding once status bytes are taken out is decoded to those events. */
  lemma DecodeThroughNoise(s: State, es: seq<Event>, bytes: seq<Byte>)
    requires Idle(s) && (forall i :: 0 <= i < |es| ==> EventOk(es[i])) && Denoised(bytes) == EncodeAll(es)
    ensures Feed(s, bytes) == s.(out := s.out + Codes(es))
  {
    NoiseDoesNotMatter(s, bytes);
    DecodeUndoesEncode(s, es);
  }

  /** The self test has passed exactly when the device has said so. */
  lemma {:induction false} SelfTestIsPass(s: State, bytes: seq<Byte>)
    ensures Feed(s, bytes).selfTestPassed <==> s.selfTestPassed || PASS in bytes
    decreases |bytes|
  {
    if bytes != [] {
      SelfTestIsPass(Step(s, bytes[0]), bytes[1..]);
      assert PASS in bytes <==> bytes[0] == PASS || PASS in bytes[1..];
    }
  }

  /** Nothing printed is taken back, and one byte prints at most one code. */
  lemma {:induction false} OutputGrows(s: State, bytes: seq<Byte>)
    ensures s.out <= Feed(s, bytes).out && |Feed(s, bytes).out| <= |s.out| + |bytes|
    decreases |bytes|
  {
    if bytes != [] { OutputGrows(Step(s, bytes[0]), bytes[1..]); }
  }

  /** Two bytes behind 0xe1 that are not the pause key print nothing and are forgotten. */
  lemma UnknownPairIsDropped(s: State, a: Byte, b: Byte)
    requires Idle(s) && 0 < a < 0x80 && 0 < b < 0x80 && !(a == 0x14 && b == 0x77)
    ensures Feed(s, [0xe1, a, b]) == s
  {
    FeedCons(s, 0xe1, [a, b]);
    FeedCons(Step(s, 0xe1), a, [b]);
    FeedOne(Step(Step(s, 0xe1), a), b);
    assert [0xe1] + [a, b] == [0xe1, a, b] && [a] + [b] == [a, b];
  }

  /** Bytes the code has no meaning for change nothing while no answer is awaited. */
  lemma OthersAreIgnored(s: State, b: Byte)
    requires !s.waiting && b != PASS
    ensures b >= 0x80 && b != 0x83 && b != 0xe0 && b != 0xe1 && b != 0xf0 ==> Step(s, b) == s
  {
  }

  predicate IsLiteral(b: Byte) { 0 < b < 0x80 }

  /** Two key bytes in a row bring the driver back to idle, whatever came before, unless it waits for the answer to a command in
      the middle of a pause key: the first byte is then taken for the answer. */
  lemma TwoLiteralsResynchronise(s: State, a: Byte, b: Byte)
    requires IsLiteral(a) && IsLiteral(b)
    ensures Idle(Feed(s, [a, b])) <==> !(s.waiting && s.doubleCode)
  {
    FeedCons(s, a, [b]);
    FeedOne(Step(s, a), b);
    assert [a, b] == [a] + [b];
  }

  /** Three always do. */
  lemma ThreeLiteralsResynchronise(s: State, a: Byte, b: Byte, c: Byte)
    requires IsLiteral(a) && IsLiteral(b) && IsLiteral(c)
    ensures Idle(Feed(s, [a, b, c]))
  {
    FeedCons(s, a, [b, c]);
    assert [a] + [b, c] == [a, b, c];
    TwoLiteralsResynchronise(Step(s, a), b, c);
  }

  // ---- The code ---------------------------------------------------------------------------------

  class Driver {
    var key: Code
    var doubleCode: bool
    var lastKey: Byte
    var waiting: bool
    var answer: Byte
    var selfTestPassed: bool
    var out: seq<Code>

    ghost function Fields(): State
      reads this
    {
      State(key, doubleCode, lastKey, waiting, answer, selfTestPassed, out)
    }

    /** `handle`, given the byte read from the port. */
    method Handle(byte: Byte)
      modifies this
      ensures Fields() == Step(old(Fields()), byte)
    {
      var input := byte;
      if input == PASS { selfTestPassed := true; return; }
      if waiting { waiting, answer := false, input; return; }
      if input == ERR_1 || input == ERR_2 { return; }
      if input == ECHO || input == ACK || input == RESEND { return; }
      if input == ST_FAIL_1 || input == ST_FAIL_2 { return; }
      if input == 0x83 { input := 0x02; }
      if input == 0xe0 { key := key.(extended := true); return; }
      if input == 0xe1 { doubleCode := true; return; }
      if input == 0xf0 { key := key.(release := true); return; }
      if input < 0x80 {
        if doubleCode {
          lastKey := input;
          doubleCode := false;
          return;
        } else if lastKey != 0 {
          if lastKey == 0x14 && input == 0x77 {
            input := 0x0f;
          } else {
            key, lastKey := NO_KEY, 0;
            return;
          }
        }
        key := key.(low := input);
        out := out + [key];
        key, lastKey := NO_KEY, 0;
      }
    }
  }
}
