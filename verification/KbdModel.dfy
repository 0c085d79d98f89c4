/**
  The keyboard driver (drivers/keyboard/keyboard.c): what a stream of scancodes means, the ring
  as a queue, and the ring filled by interrupts that come between any two steps of its reader.
 */
module KbdModel {
  import opened CTypes
  import opened Options

  type Key = x: int | 0 <= x < 0x1_0000 witness 0

  const LEFT: Key := 0x101
  const RIGHT: Key := 0x102
  const UP: Key := 0x103
  const DOWN: Key := 0x104
  const HOME: Key := 0x105
  const END: Key := 0x106
  const DEL: Key := 0x107

  // ---------------------------------------------------------------- scancodes

  datatype Mods = Mods(shiftL: bool, shiftR: bool, caps: bool, e0: bool)

  /** The two tables, up to their last entry that is not 0, by rows of sixteen. */
  const MAP: seq<string> :=
    ["\0\U{1b}1234567890-=\U{8}\t", "qwertyuiop[]\\\0as", "dfghjkl;'`\0\\zxcv", "bnm,./\0*\0 "]
  const MAP_SHIFT: seq<string> :=
    ["\0\U{1b}!@#$%^&*()_+\U{8}\t", "QWERTYUIOP{}|\0AS", "DFGHJKL:\"~\0|ZXCV", "BNM<>?\0*\0 "]

  function Entry(table: seq<string>, code: byte): byte {
    if code / 16 < |table| && code % 16 < |table[code / 16]| && table[code / 16][code % 16] as int < 0x100 then
      table[code / 16][code % 16] as int
    else 0
  }

  function Plain(code: byte): byte { Entry(MAP, code) }

  function Shifted(code: byte): byte { Entry(MAP_SHIFT, code) }

  predicate IsLetter(code: byte) {
    0x10 <= code <= 0x19 || 0x1E <= code <= 0x26 || 0x2C <= code <= 0x32
  }

  /** scancode_to_ascii; 0 for a key that is no character. */
  function Ascii(m: Mods, code: byte): byte {
    var shift := m.shiftL || m.shiftR;
    if code == 0x1C then 10
    else if code == 0x0E then 8
    else if code >= 128 then 0
    else if IsLetter(code) then (if m.caps != shift then Shifted(code) else Plain(code))
    else if shift then Shifted(code) else Plain(code)
  }

  function Extended(code: byte): Option<Key> {
    if code == 0x4B then Some(LEFT) else if code == 0x4D then Some(RIGHT)
    else if code == 0x48 then Some(UP) else if code == 0x50 then Some(DOWN)
    else if code == 0x47 then Some(HOME) else if code == 0x4F then Some(END)
    else if code == 0x53 then Some(DEL) else None
  }

  /** keyboard_irq_handler: the modifiers after a scancode, and the key it pushes. */
  function Decode(m: Mods, sc: byte): (Mods, Option<Key>) {
    if sc == 0xE0 then (m.(e0 := true), None)
    else
      var release := sc >= 0x80;
      var code: byte := sc % 0x80;
      if m.e0 then (m.(e0 := false), if release then None else Extended(code))
      else if release then
        (if code == 0x2A then m.(shiftL := false) else if code == 0x36 then m.(shiftR := false) else m, None)
      else if code == 0x2A then (m.(shiftL := true), None)
      else if code == 0x36 then (m.(shiftR := true), None)
      else if code == 0x3A then (m.(caps := !m.caps), None)
      else if code == 0x1C then (m, Some(10))
      else
        var ch := Ascii(m, code);
        (m, if ch != 0 then Some(ch) else None)
  }

  /** A letter key gives its letter: upper case exactly when one of caps lock and shift is on,
      and the tables hold letters nowhere else. */
  lemma LetterCase(m: Mods, code: byte)
    requires code < 0x80
    ensures IsLetter(code) <==> 'a' as int <= Plain(code) <= 'z' as int
    ensures IsLetter(code) ==>
              Ascii(m, code) == if m.caps != (m.shiftL || m.shiftR) then Plain(code) - 32 else Plain(code)
  {
    hide Plain, Shifted;
    LetterPlain(code);
    if IsLetter(code) { LetterShifted(code); }
  }

  lemma LetterPlain(code: byte)
    ensures IsLetter(code) <==> 'a' as int <= Plain(code) <= 'z' as int
  {
    assert |MAP| == 4 && |MAP[0]| == |MAP[1]| == |MAP[2]| == 16 && |MAP[3]| == 10;
  }

  lemma LetterShifted(code: byte)
    requires IsLetter(code)
    ensures Shifted(code) == Plain(code) - 32
  {
    assert |MAP| == 4 && |MAP[0]| == |MAP[1]| == |MAP[2]| == 16 && |MAP[3]| == 10;
    assert |MAP_SHIFT| == 4 && |MAP_SHIFT[0]| == |MAP_SHIFT[1]| == |MAP_SHIFT[2]| == 16 && |MAP_SHIFT[3]| == 10;
  }

  // ---------------------------------------------------------------- the layout

  /** The row of digits, with the characters above them. */
  lemma DigitRow(m: Mods, code: byte)
    requires 2 <= code <= 13
    ensures Ascii(m, code) == (if m.shiftL || m.shiftR then "!@#$%^&*()_+" else "1234567890-=")[code - 2] as int
  {
    Rows();
  }

  /** The three rows of letters, in upper case when one of caps lock and shift is on. */
  lemma LetterRows(m: Mods, code: byte)
    ensures var up := if m.caps != (m.shiftL || m.shiftR) then 32 else 0;
            && (0x10 <= code <= 0x19 ==> Ascii(m, code) == "qwertyuiop"[code - 0x10] as int - up)
            && (0x1E <= code <= 0x26 ==> Ascii(m, code) == "asdfghjkl"[code - 0x1E] as int - up)
            && (0x2C <= code <= 0x32 ==> Ascii(m, code) == "zxcvbnm"[code - 0x2C] as int - up)
  {
    hide Plain;
    if IsLetter(code) {
      LetterShifted(code);
      LetterTable(code);
    }
  }

  lemma LetterTable(code: byte)
    ensures 0x10 <= code <= 0x19 ==> Plain(code) == "qwertyuiop"[code - 0x10] as int
    ensures 0x1E <= code <= 0x26 ==> Plain(code) == "asdfghjkl"[code - 0x1E] as int
    ensures 0x2C <= code <= 0x32 ==> Plain(code) == "zxcvbnm"[code - 0x2C] as int
  {
    Rows();
  }

  /** The other keys: Escape, Tab, Backspace, Enter, space, star, the punctuation, and no more. */
  lemma OtherKeys(m: Mods, code: byte)
    requires !(2 <= code <= 13) && !IsLetter(code)
    ensures Ascii(m, code) ==
            var shift := m.shiftL || m.shiftR;
            if code == 0x01 then 27 else if code == 0x0E then 8 else if code == 0x0F then 9 else if code == 0x1C then 10
            else if code == 0x37 then '*' as int else if code == 0x39 then ' ' as int
            else if code == 0x1A then (if shift then '{' else '[') as int
            else if code == 0x1B then (if shift then '}' else ']') as int
            else if code == 0x27 then (if shift then ':' else ';') as int
            else if code == 0x28 then (if shift then '\"' else '\'') as int
            else if code == 0x29 then (if shift then '~' else '`') as int
            else if code == 0x2B then (if shift then '|' else '\\') as int
            else if code == 0x33 then (if shift then '<' else ',') as int
            else if code == 0x34 then (if shift then '>' else '.') as int
            else if code == 0x35 then (if shift then '?' else '/') as int
            else 0
  {
    Rows();
  }

  lemma Rows()
    ensures |MAP| == 4 && |MAP[0]| == |MAP[1]| == |MAP[2]| == 16 && |MAP[3]| == 10
    ensures |MAP_SHIFT| == 4 && |MAP_SHIFT[0]| == |MAP_SHIFT[1]| == |MAP_SHIFT[2]| == 16 && |MAP_SHIFT[3]| == 10
  {
  }

  /** The keys behind the prefix that count: the arrows, Home, End and Delete. */
  lemma ExtendedKeys(code: byte)
    ensures Extended(code) == Some(0x101) <==> code == 0x4B
    ensures Extended(code) == Some(0x102) <==> code == 0x4D
    ensures Extended(code) == Some(0x103) <==> code == 0x48
    ensures Extended(code) == Some(0x104) <==> code == 0x50
    ensures Extended(code) == Some(0x105) <==> code == 0x47
    ensures Extended(code) == Some(0x106) <==> code == 0x4F
    ensures Extended(code) == Some(0x107) <==> code == 0x53
    ensures Extended(code).Some? ==> 0x101 <= Extended(code).value <= 0x107
  {
  }

  /** Only a press gives a key: after the prefix one of the extended keys, else the key's character
      if it has one; shift and caps lock have none. */
  lemma KeyOf(m: Mods, sc: byte, k: Key)
    ensures Decode(m, sc).1 == Some(k) <==>
            && sc < 0x80
            && if m.e0 then Extended(sc) == Some(k)
               else k == Ascii(m, sc) && k != 0
    ensures Ascii(m, 0x2A) == Ascii(m, 0x36) == Ascii(m, 0x3A) == 0
  {
    hide Extended, Ascii;
    OtherKeys(m, 0x2A);
    OtherKeys(m, 0x36);
    OtherKeys(m, 0x3A);
    OtherKeys(m, 0x1C);
  }

  function Mod(m: Mods, scs: seq<byte>): Mods {
    if scs == [] then m else Decode(Mod(m, scs[..|scs| - 1]), scs[|scs| - 1]).0
  }

  /** The keys a stream of scancodes means, when it starts with modifiers m. */
  function Keys(m: Mods, scs: seq<byte>): seq<Key> {
    if scs == [] then []
    else
      var init := scs[..|scs| - 1];
      var key := Decode(Mod(m, init), scs[|scs| - 1]).1;
      if key.Some? then Keys(m, init) + [key.value] else Keys(m, init)
  }

  const START := Mods(false, false, false, false)

  /** Scancode i stands for itself: it is no prefix and follows none. */
  predicate Direct(scs: seq<byte>, i: nat)
    requires i < |scs|
  {
    scs[i] != 0xE0 && (i > 0 ==> scs[i - 1] != 0xE0)
  }

  /** The last direct scancode that is press or release is press. */
  ghost predicate Held(scs: seq<byte>, press: byte) {
    exists i :: 0 <= i < |scs| && Direct(scs, i) && scs[i] == press && !ReleasedAfter(scs, i, press)
  }

  ghost predicate ReleasedAfter(scs: seq<byte>, i: nat, press: byte) {
    exists j :: i < j < |scs| && Direct(scs, j) && scs[j] == press + 0x80
  }

  function Presses(scs: seq<byte>, code: byte): nat {
    if scs == [] then 0
    else Presses(scs[..|scs| - 1], code) + if Direct(scs, |scs| - 1) && scs[|scs| - 1] == code then 1 else 0
  }

  lemma HeldStep(scs: seq<byte>, sc: byte, press: byte)
    requires press < 0x60
    ensures var r := scs + [sc];
            Held(r, press) <==>
            if Direct(r, |scs|) && sc == press then true
            else if Direct(r, |scs|) && sc == press + 0x80 then false
            else Held(scs, press)
  {
    var r := scs + [sc];
    assert forall i :: 0 <= i < |scs| ==> r[i] == scs[i] && (Direct(r, i) <==> Direct(scs, i));
    if Direct(r, |scs|) && sc == press {
      assert r[|scs|] == press && !ReleasedAfter(r, |scs|, press);
    }
    forall i | 0 <= i < |scs|
      ensures ReleasedAfter(r, i, press) <==> ReleasedAfter(scs, i, press) || (Direct(r, |scs|) && sc == press + 0x80)
    {
      if Direct(r, |scs|) && sc == press + 0x80 { assert r[|scs|] == press + 0x80; }
    }
  }

  lemma HeldNone(press: byte)
    ensures !Held([], press)
  {
  }

  lemma ModStep(m: Mods, sc: byte)
    ensures var r := Decode(m, sc).0;
            var direct := sc != 0xE0 && !m.e0;
            && r.shiftL == (if direct && sc == 0x2A then true else if direct && sc == 0xAA then false else m.shiftL)
            && r.shiftR == (if direct && sc == 0x36 then true else if direct && sc == 0xB6 then false else m.shiftR)
            && r.caps == (if direct && sc == 0x3A then !m.caps else m.caps)
            && r.e0 == (sc == 0xE0)
  {
  }

  /** What the driver keeps of the past: each shift flag says whether that key is down, caps
      lock counts its presses, and a prefix waits only for the next scancode. */
  lemma {:induction false} ModsAre(scs: seq<byte>)
    ensures var m := Mod(START, scs);
            && (m.shiftL <==> Held(scs, 0x2A)) && (m.shiftR <==> Held(scs, 0x36))
            && (m.caps <==> Presses(scs, 0x3A) % 2 == 1)
            && (m.e0 <==> scs != [] && scs[|scs| - 1] == 0xE0)
  {
    hide Decode, Held;
    if scs == [] {
      HeldNone(0x2A);
      HeldNone(0x36);
    } else {
      var (init, sc) := (scs[..|scs| - 1], scs[|scs| - 1]);
      assert init + [sc] == scs;
      ModsAre(init);
      HeldStep(init, sc, 0x2A);
      HeldStep(init, sc, 0x36);
      ModStep(Mod(START, init), sc);
    }
  }

  // ---------------------------------------------------------------- the ring

  const SIZE := 128

  datatype Ring = Ring(data: seq<Key>, head: nat, tail: nat)

  predicate RingOk(r: Ring) { |r.data| == SIZE && r.head < SIZE && r.tail < SIZE }

  function Count(r: Ring): (n: nat)
    requires RingOk(r)
    ensures n < SIZE
  {
    if r.head >= r.tail then r.head - r.tail else r.head + SIZE - r.tail
  }

  function At(r: Ring, i: nat): Key
    requires RingOk(r) && i < SIZE
  {
    r.data[if r.tail + i < SIZE then r.tail + i else r.tail + i - SIZE]
  }

  /** The keys in the ring, the oldest first. */
  function Pending(r: Ring): (s: seq<Key>)
    requires RingOk(r)
    ensures |s| == Count(r)
  {
    seq(Count(r), i requires 0 <= i < SIZE => At(r, i))
  }

  /** push_key. */
  function Push(r: Ring, key: Key): Ring
    requires RingOk(r)
  {
    var n := (r.head + 1) % SIZE;
    if n != r.tail then Ring(r.data[r.head := key], n, r.tail) else r
  }

  function Advance(r: Ring): Ring { r.(tail := (r.tail + 1) % SIZE) }

  /** A push appends to the queue, unless 127 keys are waiting. */
  lemma PushIs(r: Ring, key: Key)
    requires RingOk(r)
    ensures RingOk(Push(r, key))
    ensures Pending(Push(r, key)) == if |Pending(r)| == 127 then Pending(r) else Pending(r) + [key]
  {
    if |Pending(r)| < SIZE - 1 {
      var p := Push(r, key);
      assert forall i :: 0 <= i < |Pending(r)| ==> Pending(p)[i] == Pending(r)[i];
    }
  }

  /** Reading the slot at the tail and moving the tail on takes the oldest key. */
  lemma AdvanceIs(r: Ring)
    requires RingOk(r)
    ensures r.head == r.tail <==> Pending(r) == []
    ensures r.head != r.tail ==>
              RingOk(Advance(r)) && Pending(r) == [r.data[r.tail]] + Pending(Advance(r))
  {
  }

  // ---------------------------------------------------------------- the ring under interrupts

  /** Where the reader is: before its test, between the test and the read, between the read and
      the move of the tail. */
  datatype Reader = Idle | Tested | Holding(key: Key)

  /** The driver, with logs of the keys decoded, put into the ring, and handed to the caller. */
  datatype Kbd = Kbd(ring: Ring, mods: Mods, reader: Reader, decoded: seq<Key>, accepted: seq<Key>, delivered: seq<Key>)

  datatype Step = Irq(sc: byte) | Consume

  function Next(k: Kbd, step: Step): Kbd
    requires RingOk(k.ring)
  {
    match step
    case Irq(sc) =>
      var (m, key) := Decode(k.mods, sc);
      if key.None? then k.(mods := m)
      else
        var r := Push(k.ring, key.value);
        k.(mods := m, ring := r, decoded := k.decoded + [key.value],
           accepted := if r != k.ring then k.accepted + [key.value] else k.accepted)
    case Consume =>
      match k.reader
      case Idle => if k.ring.head == k.ring.tail then k else k.(reader := Tested)
      case Tested => k.(reader := Holding(k.ring.data[k.ring.tail]))
      case Holding(key) => k.(reader := Idle, ring := Advance(k.ring), delivered := k.delivered + [key])
  }

  /** What was accepted is what was delivered and, after it, what waits in the ring; a reader
      past its test has a key to take, and past its read it holds the oldest. */
  ghost predicate Inv(k: Kbd) {
    && RingOk(k.ring) && k.accepted == k.delivered + Pending(k.ring)
    && (k.reader != Idle ==> k.ring.head != k.ring.tail)
    && (k.reader.Holding? ==> k.reader.key == k.ring.data[k.ring.tail])
  }

  lemma NextInv(k: Kbd, step: Step)
    requires Inv(k)
    ensures Inv(Next(k, step))
  {
    match step
    case Irq(sc) =>
      var key := Decode(k.mods, sc).1;
      if key.Some? { PushIs(k.ring, key.value); PushMoves(k.ring, key.value); }
    case Consume =>
      AdvanceIs(k.ring);
  }

  /** A push is dropped, leaving the ring as it is, exactly when 127 keys are waiting; it never
      touches the slot the reader is at. */
  lemma PushMoves(r: Ring, key: Key)
    requires RingOk(r)
    ensures Push(r, key) == r <==> |Pending(r)| == 127
    ensures r.head != r.tail ==> Push(r, key).data[r.tail] == r.data[r.tail] && Push(r, key).head != r.tail
  {
  }

  ghost predicate Prefix(a: seq<Key>, b: seq<Key>) { |a| <= |b| && b[..|a|] == a }

  ghost predicate Follows(ks: seq<Kbd>, steps: seq<Step>, i: nat)
    requires i + 1 < |ks| && i < |steps|
  {
    RingOk(ks[i].ring) && ks[i + 1] == Next(ks[i], steps[i])
  }

  /** A run from the empty ring: interrupts and the reader's steps in any order. */
  ghost predicate Run(ks: seq<Kbd>, steps: seq<Step>) {
    && |ks| == |steps| + 1
    && RingOk(ks[0].ring) && ks[0].ring.head == ks[0].ring.tail
    && ks[0].mods == START && ks[0].reader == Idle
    && ks[0].decoded == [] && ks[0].accepted == [] && ks[0].delivered == []
    && forall i :: 0 <= i < |steps| ==> Follows(ks, steps, i)
  }

  /** The scancodes of the interrupts among the steps. */
  function Codes(steps: seq<Step>): seq<byte> {
    if steps == [] then []
    else
      var init := Codes(steps[..|steps| - 1]);
      match steps[|steps| - 1] case Irq(sc) => init + [sc] case Consume => init
  }

  /** Every interleaving: the delivered keys are a prefix of the accepted ones, the rest of which
      waits in the ring; and what was decoded is what the scancodes so far mean. */
  lemma {:induction false} RunDelivers(ks: seq<Kbd>, steps: seq<Step>, i: nat)
    requires Run(ks, steps) && i < |ks|
    ensures Inv(ks[i]) && Prefix(ks[i].delivered, ks[i].accepted)
    ensures ks[i].decoded == Keys(START, Codes(steps[..i])) && ks[i].mods == Mod(START, Codes(steps[..i]))
  {
    hide Decode, Pending, Push;
    if i == 0 {
      AdvanceIs(ks[0].ring);
      assert ks[0].accepted == [] + [];
    } else {
      var p := i - 1;
      RunDelivers(ks, steps, p);
      assert Follows(ks, steps, p);
      NextInv(ks[p], steps[p]);
      assert steps[..i][..p] == steps[..p] && steps[..i][p] == steps[p];
      var codes := Codes(steps[..p]);
      if steps[p].Irq? {
        assert (codes + [steps[p].sc])[..|codes|] == codes;
      }
    }
  }

  /** Nothing is delivered twice or taken back: the logs only grow. */
  lemma {:induction false} RunGrows(ks: seq<Kbd>, steps: seq<Step>, i: nat, j: nat)
    requires Run(ks, steps) && i <= j < |ks|
    ensures Prefix(ks[i].delivered, ks[j].delivered) && Prefix(ks[i].accepted, ks[j].accepted)
  {
    hide Decode, Push;
    if i < j {
      RunGrows(ks, steps, i, j - 1);
      assert Follows(ks, steps, j - 1);
    }
  }

  /** A decoded key is dropped exactly when 127 accepted keys have not been delivered. */
  lemma DropIff(k: Kbd, sc: byte)
    requires Inv(k) && Decode(k.mods, sc).1.Some?
    ensures Next(k, Irq(sc)).accepted == k.accepted <==> |k.accepted| - |k.delivered| == 127
    ensures Next(k, Irq(sc)).accepted != k.accepted ==>
              Next(k, Irq(sc)).accepted == k.accepted + [Decode(k.mods, sc).1.value]
  {
    PushMoves(k.ring, Decode(k.mods, sc).1.value);
  }

  /** As long as the ring has never been full, no key is lost: what is delivered and what waits
      are all the keys that the scancodes mean, in order. */
  lemma {:induction false} NothingLost(ks: seq<Kbd>, steps: seq<Step>, i: nat)
    requires Run(ks, steps) && i < |ks|
    requires forall j :: 0 <= j < i ==> |ks[j].accepted| - |ks[j].delivered| < 127
    ensures Inv(ks[i]) && ks[i].delivered + Pending(ks[i].ring) == Keys(START, Codes(steps[..i]))
    ensures ks[i].accepted == ks[i].decoded
  {
    hide Decode, Pending, Push;
    RunDelivers(ks, steps, i);
    if i > 0 {
      NothingLost(ks, steps, i - 1);
      assert Follows(ks, steps, i - 1);
      RunDelivers(ks, steps, i - 1);
      if steps[i - 1].Irq? && Decode(ks[i - 1].mods, steps[i - 1].sc).1.Some? {
        DropIff(ks[i - 1], steps[i - 1].sc);
      }
    }
  }

  /** The reader reports an empty ring exactly when everything accepted has been delivered. */
  lemma EmptyIff(k: Kbd)
    requires Inv(k) && k.reader == Idle
    ensures Next(k, Consume).reader == Idle <==> k.delivered == k.accepted
  {
    AdvanceIs(k.ring);
    assert k.delivered + [] == k.delivered;
  }
}
