/** The PS/2 packet decoder, against the movements that a stream of bytes encodes. */
module Mouse {
  import opened Arithmetic

  /** The 32-bit two's complement value that an atomic add leaves. */
  function Wrap(n: int): int { (n + 0x8000_0000) % 0x1_0000_0000 - 0x8000_0000 }

  /** It is the one number of 32 bits, sign included, that agrees modulo 2^32. */
  lemma WrapMeans(n: int)
    ensures -0x8000_0000 <= Wrap(n) < 0x8000_0000 && (Wrap(n) - n) % 0x1_0000_0000 == 0
  {
    var m := n + 0x8000_0000;
    Quotient(Wrap(n) - n, 0x1_0000_0000, -(m / 0x1_0000_0000), 0);
  }

  predicate Flag(byte: int, weight: int)
    requires weight > 0
  {
    byte / weight % 2 == 1
  }

  datatype State = State(cycle: int, first: int, second: int, x: int, y: int, buttons: int)

  // value | !0xFF when the sign bit is set
  function Extend(byte: int, negative: bool): int { if negative then byte - 256 else byte }

  function Step(s: State, byte: int): State {
    if s.cycle == 0 then (if Flag(byte, 8) then s.(cycle := 1, first := byte) else s)
    else if s.cycle == 1 then s.(cycle := 2, second := byte)
    else if s.cycle == 2 then
      var dx, dy := Extend(s.second, Flag(s.first, 16)), -Extend(byte, Flag(s.first, 32));
      s.(cycle := 0, x := Wrap(s.x + dx), y := Wrap(s.y + dy), buttons := s.first % 4)
    else s.(cycle := 0)
  }

  function Run(s: State, bytes: seq<int>): State
    decreases |bytes|
  {
    if bytes == [] then s else Run(Step(s, bytes[0]), bytes[1..])
  }

  // ---------- what the mouse sends ----------

  /** A movement with its buttons and the three header bits that the decoder ignores, or a stray byte. */
  datatype Item =
    | Move(dx: int, dy: int, left: bool, right: bool, middle: bool, overflowX: bool, overflowY: bool)
    | Noise(byte: int)

  ghost predicate Sendable(i: Item) {
    if i.Move? then -256 <= i.dx <= 255 && -256 <= i.dy <= 255 else 0 <= i.byte < 256 && !Flag(i.byte, 8)
  }

  function Weight(b: bool, w: int): int { if b then w else 0 }

  function Buttons(i: Item): int
    requires i.Move?
  {
    Weight(i.left, 1) + Weight(i.right, 2)
  }

  /** Sign bits in 4 and 5, bit 3 always set, buttons below, overflow flags above. */
  function Header(i: Item): int
    requires i.Move?
  {
    Buttons(i) + Weight(i.middle, 4) + 8 + Weight(i.dx < 0, 16) + Weight(i.dy < 0, 32)
    + Weight(i.overflowX, 64) + Weight(i.overflowY, 128)
  }

  function Encode(i: Item): seq<int> {
    if i.Move? then [Header(i), i.dx % 256, i.dy % 256] else [i.byte]
  }

  function Stream(items: seq<Item>): seq<int> {
    if items == [] then [] else Stream(items[..|items| - 1]) + Encode(items[|items| - 1])
  }

  function SumX(items: seq<Item>): int {
    if items == [] then 0
    else SumX(items[..|items| - 1]) + if items[|items| - 1].Move? then items[|items| - 1].dx else 0
  }

  function SumY(items: seq<Item>): int {
    if items == [] then 0
    else SumY(items[..|items| - 1]) + if items[|items| - 1].Move? then items[|items| - 1].dy else 0
  }

  /** The buttons of the last movement, or those from before the stream. */
  function LastButtons(items: seq<Item>, before: int): int {
    if items == [] then before
    else if items[|items| - 1].Move? then Buttons(items[|items| - 1])
    else LastButtons(items[..|items| - 1], before)
  }

  // ---------- the decoder undoes the encoder ----------

  lemma HeaderFields(i: Item)
    requires i.Move?
    ensures Flag(Header(i), 8) && Flag(Header(i), 16) == (i.dx < 0) && Flag(Header(i), 32) == (i.dy < 0)
    ensures Header(i) % 4 == Buttons(i)
  {
    var high := Weight(i.overflowX, 1) + Weight(i.overflowY, 2);
    var h32 := Weight(i.dy < 0, 1) + 2 * high;
    var h16 := Weight(i.dx < 0, 1) + 2 * h32;
    var low := Buttons(i) + Weight(i.middle, 4);
    Quotient(Header(i), 32, h32, low + 8 + Weight(i.dx < 0, 16));
    Quotient(Header(i), 16, h16, low + 8);
    Quotient(Header(i), 8, 1 + 2 * h16, low);
    Quotient(Header(i), 4, 2 + 4 * h16 + Weight(i.middle, 1), Buttons(i));
  }

  lemma ExtendUndoes(d: int)
    requires -256 <= d <= 255
    ensures Extend(d % 256, d < 0) == d
  {}

  lemma {:induction false} RunConcat(s: State, a: seq<int>, b: seq<int>)
    ensures Run(s, a + b) == Run(Run(s, a), b)
    decreases |a|
  {
    if a == [] {
      assert a + b == b;
    } else {
      assert (a + b)[1..] == a[1..] + b;
      RunConcat(Step(s, a[0]), a[1..], b);
    }
  }

  /**
   Any three bytes at a packet boundary, the first with bit 3 set: bits 4 and 5 of the first are the signs
   of the other two, the screen's y axis points down, and bits 0 and 1 are the buttons.
   */
  lemma PacketMoves(s: State, a: int, b: int, c: int)
    requires s.cycle == 0 && a / 8 % 2 == 1
    ensures var r := Run(s, [a, b, c]);
            && r.cycle == 0
            && r.x == Wrap(s.x + b - (if a / 16 % 2 == 1 then 256 else 0))
            && r.y == Wrap(s.y - c + (if a / 32 % 2 == 1 then 256 else 0))
            && r.buttons == a % 4
  {
    hide Wrap;
    assert [a, b, c] == [a] + [b] + [c];
    RunConcat(s, [a] + [b], [c]);
    RunConcat(s, [a], [b]);
    RunOne(s, a);
    RunOne(Step(s, a), b);
    RunOne(Step(Step(s, a), b), c);
  }

  /** One item decoded at a packet boundary moves the pointer by what it encodes. */
  lemma ItemDecodes(s: State, i: Item)
    requires s.cycle == 0 && Sendable(i)
    ensures var r := Run(s, Encode(i));
            && r.cycle == 0
            && r.x == (if i.Move? then Wrap(s.x + i.dx) else s.x)
            && r.y == (if i.Move? then Wrap(s.y - i.dy) else s.y)
            && r.buttons == (if i.Move? then Buttons(i) else s.buttons)
  {
    if i.Move? {
      HeaderFields(i);
      ExtendUndoes(i.dx);
      ExtendUndoes(i.dy);
      hide Header, Flag, Extend, Wrap;
      var h, b1, b2 := Header(i), i.dx % 256, i.dy % 256;
      assert Encode(i) == [h] + [b1] + [b2];
      RunConcat(s, [h] + [b1], [b2]);
      RunConcat(s, [h], [b1]);
      RunOne(s, h);
      RunOne(Step(s, h), b1);
      RunOne(Step(Step(s, h), b1), b2);
    } else {
      RunOne(s, i.byte);
    }
  }

  lemma RunOne(s: State, byte: int)
    ensures Run(s, [byte]) == Step(s, byte)
  {
    assert [byte][1..] == [];
  }

  lemma WrapAdd(a: int, d: int)
    ensures Wrap(Wrap(a) + d) == Wrap(a + d)
  {
    var n := a + 0x8000_0000;
    var q := n / 0x1_0000_0000;
    var m := n + d;
    Quotient(n % 0x1_0000_0000 + d, 0x1_0000_0000, m / 0x1_0000_0000 - q, m % 0x1_0000_0000);
  }

  lemma {:induction false} StreamWraps(s: State, items: seq<Item>)
    requires s.cycle == 0 && s.x == Wrap(s.x) && s.y == Wrap(s.y)
    requires forall i | i in items :: Sendable(i)
    ensures var r := Run(s, Stream(items));
            && r.cycle == 0
            && r.x == Wrap(s.x + SumX(items))
            && r.y == Wrap(s.y - SumY(items))
            && r.buttons == LastButtons(items, s.buttons)
  {
    if items == [] {
    } else {
      var before, last := items[..|items| - 1], items[|items| - 1];
      StreamWraps(s, before);
      RunConcat(s, Stream(before), Encode(last));
      ItemDecodes(Run(s, Stream(before)), last);
      if last.Move? {
        WrapAdd(s.x + SumX(before), last.dx);
        WrapAdd(s.y - SumY(before), -last.dy);
      }
    }
  }

  predicate Is32Bit(n: int) { -0x8000_0000 <= n < 0x8000_0000 }

  /** Any stream of movements with stray bytes between packets lands on the exact sums, modulo 2^32. */
  lemma StreamDecodes(s: State, items: seq<Item>)
    requires s.cycle == 0 && Is32Bit(s.x) && Is32Bit(s.y)
    requires forall i | i in items :: Sendable(i)
    ensures var r := Run(s, Stream(items));
            && r.cycle == 0 && Is32Bit(r.x) && Is32Bit(r.y)
            && (r.x - (s.x + SumX(items))) % 0x1_0000_0000 == 0
            && (r.y - (s.y - SumY(items))) % 0x1_0000_0000 == 0
            && r.buttons == LastButtons(items, s.buttons)
  {
    assert s.x == Wrap(s.x) && s.y == Wrap(s.y);
    hide Wrap;
    StreamWraps(s, items);
    WrapMeans(s.x + SumX(items));
    WrapMeans(s.y - SumY(items));
  }

  /** Whatever bytes arrive, the machine stays in its three states. */
  lemma {:induction false} CycleStaysInRange(s: State, bytes: seq<int>)
    requires 0 <= s.cycle <= 2
    ensures 0 <= Run(s, bytes).cycle <= 2
    decreases |bytes|
  {
    if bytes != [] { CycleStaysInRange(Step(s, bytes[0]), bytes[1..]); }
  }

  // ---------- the interrupt handler ----------

  class Handler {
    var mouseX: int
    var mouseY: int
    var mouseButtons: int
    var cycle: int
    const packet: array<int>

    constructor ()
      ensures fresh(packet) && packet.Length == 3 && View() == State(0, 0, 0, 400, 300, 0)
    {
      mouseX, mouseY, mouseButtons, cycle := 400, 300, 0, 0;
      packet := new int[3](_ => 0);
    }

    ghost function View(): State
      requires packet.Length == 3
      reads this, packet
    {
      State(cycle, packet[0], packet[1], mouseX, mouseY, mouseButtons)
    }

    method ProcessPacketByte(byte: int)
      requires packet.Length == 3
      modifies this, packet
      ensures View() == Step(old(View()), byte)
    {
      if cycle == 0 {
        if Flag(byte, 8) {
          packet[0] := byte;
          cycle := cycle + 1;
        }
      } else if cycle == 1 {
        packet[1] := byte;
        cycle := cycle + 1;
      } else if cycle == 2 {
        packet[2] := byte;
        var state := packet[0];
        var dx := packet[1];
        var dy := packet[2];
        if Flag(state, 16) { dx := dx - 256; }
        if Flag(state, 32) { dy := dy - 256; }
        dy := -dy;
        mouseX := Wrap(mouseX + dx);
        mouseY := Wrap(mouseY + dy);
        mouseButtons := state % 4;
        cycle := 0;
      } else {
        cycle := 0;
      }
    }
  }
}
