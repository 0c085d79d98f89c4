/** The keyboard driver's own state (drivers/keyboard/keyboard.c): the ring, its two ends and the modifiers. */
module Keyboard {
  import opened CTypes
  import opened Options
  import opened KbdModel

  class Driver {
    const ring: array<Key>
    var head: nat
    var tail: nat
    var shiftL: bool
    var shiftR: bool
    var caps: bool
    var e0Pending: bool

    ghost predicate Valid()
      reads this, ring
    {
      RingOk(State())
    }

    ghost function State(): Ring
      reads this, ring
    {
      Ring(ring[..], head, tail)
    }

    /** The keys waiting, the oldest first. */
    ghost function Queue(): seq<Key>
      requires Valid()
      reads this, ring
    {
      Pending(State())
    }

    function Modifiers(): Mods
      reads this`shiftL, this`shiftR, this`caps, this`e0Pending
    {
      Mods(shiftL, shiftR, caps, e0Pending)
    }

    /** keyboard_init. */
    constructor ()
      ensures Valid() && Queue() == [] && Modifiers() == START
    {
      ring := new Key[SIZE];
      head, tail := 0, 0;
      shiftL, shiftR, caps, e0Pending := false, false, false, false;
    }

    /** push_key. */
    method PushKey(key: Key)
      requires Valid()
      modifies this`head, ring
      ensures Valid() && State() == Push(old(State()), key)
      ensures Queue() == if |old(Queue())| == 127 then old(Queue()) else old(Queue()) + [key]
    {
      PushIs(State(), key);
      var n := (head + 1) % SIZE;
      if n != tail {
        ring[head] := key;
        head := n;
      }
    }

    /** keyboard_getkey_nonblock: the oldest key, or -1. */
    method GetKeyNonblock() returns (key: int)
      requires Valid()
      modifies this`tail
      ensures Valid()
      ensures old(Queue()) == [] ==> key == -1 && Queue() == []
      ensures old(Queue()) != [] ==> key >= 0 && old(Queue()) == [key] + Queue()
    {
      AdvanceIs(State());
      if head == tail { return -1; }
      key := ring[tail];
      tail := (tail + 1) % SIZE;
    }

    /** keyboard_getchar_nonblock: takes the oldest key all the same when it is no character. */
    method GetCharNonblock() returns (ch: int)
      requires Valid()
      modifies this`tail
      ensures Valid() && Queue() == if old(Queue()) == [] then [] else old(Queue())[1..]
      ensures ch == if old(Queue()) != [] && old(Queue())[0] < 256 then old(Queue())[0] else -1
    {
      var k := GetKeyNonblock();
      if k < 0 { return -1; }
      if k < 256 { return k; }
      return -1;
    }

    /** scancode_to_ascii. */
    method ScancodeToAscii(sc: byte) returns (ch: byte)
      ensures ch == Ascii(Modifiers(), sc)
    {
      if sc == 0x1C { return 10; }
      if sc == 0x0E { return 8; }
      if sc < 128 {
        var isLetter := (sc >= 0x10 && sc <= 0x19) || (sc >= 0x1E && sc <= 0x26) || (sc >= 0x2C && sc <= 0x32);
        var sh := shiftL || shiftR;
        if isLetter {
          if caps != sh { return Shifted(sc); } else { return Plain(sc); }
        } else {
          return if sh then Shifted(sc) else Plain(sc);
        }
      }
      return 0;
    }

    /** keyboard_irq_handler, given the byte read from the controller. */
    method IrqHandler(sc: byte)
      requires Valid()
      modifies this`head, this`shiftL, this`shiftR, this`caps, this`e0Pending, ring
      ensures Valid() && Modifiers() == Decode(old(Modifiers()), sc).0
      ensures var key := Decode(old(Modifiers()), sc).1;
              && (key.None? ==> Queue() == old(Queue()))
              && (key.Some? ==>
                    Queue() == if |old(Queue())| == 127 then old(Queue()) else old(Queue()) + [key.value])
    {
      hide Pending, Ascii, Push;
      if sc == 0xE0 { e0Pending := true; return; }
      var release := sc >= 0x80;
      var code: byte := sc % 0x80;
      if e0Pending {
        e0Pending := false;
        if release { return; }
        match code {
          case 0x4B => PushKey(LEFT);
          case 0x4D => PushKey(RIGHT);
          case 0x48 => PushKey(UP);
          case 0x50 => PushKey(DOWN);
          case 0x47 => PushKey(HOME);
          case 0x4F => PushKey(END);
          case 0x53 => PushKey(DEL);
          case _ =>
        }
        return;
      }
      if release {
        if code == 0x2A { shiftL := false; }
        else if code == 0x36 { shiftR := false; }
        return;
      }
      if code == 0x2A { shiftL := true; return; }
      if code == 0x36 { shiftR := true; return; }
      if code == 0x3A { caps := !caps; return; }
      if code == 0x1C { PushKey(10); return; }
      var ch := ScancodeToAscii(code);
      if ch != 0 { PushKey(ch); }
    }
  }
}
