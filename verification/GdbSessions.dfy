/**
 What goes over the line, character by character: a few exchanges with the debugger stub,
 as one would type them.  The checksums of the commands are not looked at.
 */
module GdbSessions {
  import opened Bits
  import opened Common
  import opened GdbStub

  function CodeOf(c: char): Byte { if c as int < 256 then c as int else 0 }

  /** The bytes of a text. */
  function Text(s: string): seq<Byte> { seq(|s|, i requires 0 <= i < |s| => CodeOf(s[i])) }

  lemma TextAppend(s: string, t: string)
    ensures Text(s + t) == Text(s) + Text(t)
  {
  }

  // ---------------------------------------------------------------- hexadecimal

  lemma TwoDigits(s: seq<Byte>, x: nat, y: nat)
    requires |s| == 2 && IsHex(s[0]) && IsHex(s[1]) && HexToDigit(s[0]) == x && HexToDigit(s[1]) == y
    ensures Number(s) && HexValue(s) == x * 16 + y && IntOf(s) == x * 16 + y
  {
    assert s[..1][..0] == [] && HexValue(s[..1]) == x;
  }

  lemma FourDigits(s: seq<Byte>, x: nat, y: nat, z: nat, u: nat)
    requires |s| == 4 && AllHex(s)
    requires HexToDigit(s[0]) == x && HexToDigit(s[1]) == y && HexToDigit(s[2]) == z && HexToDigit(s[3]) == u
    ensures IntOf(s) == x * 4096 + y * 256 + z * 16 + u
  {
    TwoDigits(s[..2], x, y);
    assert s[..3][..2] == s[..2];
    assert HexValue(s[..3]) == (x * 16 + y) * 16 + z;
  }

  /** `mem2hex`, `hex2mem` and `hex2int` on what one would write. */
  lemma HexSpelled()
    ensures ToHex([0xab]) == Text("ab") && FromHex(Text("Ab")) == [0xab]
    ensures AllHex(Text("1a2B")) && IntOf(Text("1a2B")) == 0x1a2b
  {
    ToHexAt([0xab], 0);
    PackDigits(Text("Ab")[0], Text("Ab")[1]);
    FourDigits(Text("1a2B"), 1, 10, 2, 11);
  }

  // ---------------------------------------------------------------- replies

  lemma FrameOf(data: seq<Byte>, sum: Byte, hi: nat, lo: nat)
    requires Total(data) % 256 == sum && sum == hi * 16 + lo && hi < 16 && lo < 16
    ensures Frame(data) == [DOLLAR] + data + [HASH, DigitToHex(hi), DigitToHex(lo)]
  {
    ChecksumIsTotal(data);
  }

  lemma Sum2(s: seq<Byte>)
    requires |s| == 2
    ensures Total(s) == s[0] as int + s[1] as int
  {
    assert s[..1][..0] == [] && Total(s[..1]) == s[0];
  }

  lemma Sum3(s: seq<Byte>)
    requires |s| == 3
    ensures Total(s) == s[0] as int + s[1] as int + s[2] as int
  {
    Sum2(s[..2]);
  }

  lemma FrameOfByte()
    ensures Frame(Text("ab")) == Text("$ab#c3")
  {
    Sum2(Text("ab"));
    FrameOf(Text("ab"), 0xc3, 12, 3);
  }

  lemma FrameOfOk()
    ensures Frame(StatusPacket(0)) == Text("$OK#9a")
  {
    Sum2(StatusPacket(0));
    FrameOf(StatusPacket(0), 0x9a, 9, 10);
  }

  lemma FrameOfError(n: nat)
    requires 1 <= n <= 3
    ensures Frame(StatusPacket(n)) == Text(if n == 1 then "$E01#a6" else if n == 2 then "$E02#a7" else "$E03#a8")
  {
    Sum3(StatusPacket(n));
    FrameOf(StatusPacket(n), 0xa5 + n, 10, 5 + n);
  }

  lemma FrameOfNothing()
    ensures Frame([]) == Text("$#00")
  {
    FrameOf([], 0, 0, 0);
  }

  // ---------------------------------------------------------------- exchanges

  /** `command` and whatever follows it comes in, `reply` goes out, and memory changes from `mem` to `mem1`. */
  ghost predicate Exchanged(mem: Memory, command: seq<Byte>, mem1: Memory, reply: seq<Byte>) {
    forall more: seq<Byte> :: Iterate(State(mem, command + more, [])) == Next(State(mem1, more, reply))
  }

  /** The command in its frame, then an acknowledgement of the reply. */
  function Typed(data: seq<Byte>): seq<Byte> { [DOLLAR] + data + [HASH, '0' as int, '0' as int, PLUS] }

  lemma ExchangedAs(mem: Memory, data: seq<Byte>, mem1: Memory, reply: seq<Byte>)
    requires Sendable(data) && Handle(data + [0], mem) == Reply(mem1, reply)
    ensures Exchanged(mem, Typed(data), mem1, [PLUS] + Frame(reply))
  {
    forall more: seq<Byte>
      ensures Iterate(State(mem, Typed(data) + more, [])) == Next(State(mem1, more, [PLUS] + Frame(reply)))
    {
      OneTurn(State(mem, Typed(data) + more, []), data, more, mem1, reply);
    }
  }

  lemma TypedParts(data: seq<Byte>, more: seq<Byte>)
    ensures Typed(data) + more ==
            [] + ([DOLLAR] + data + [HASH] + ['0' as int, '0' as int]) + ([PLUS] + more)
  {
  }

  lemma AfterPlus(frame: seq<Byte>)
    ensures [] + [PLUS] + frame == [PLUS] + frame
  {
  }

  lemma OneTurn(st: State, data: seq<Byte>, more: seq<Byte>, mem1: Memory, reply: seq<Byte>)
    requires Sendable(data) && Handle(data + [0], st.mem) == Reply(mem1, reply)
    requires st.input == Typed(data) + more && st.output == []
    ensures Iterate(st) == Next(State(mem1, more, [PLUS] + Frame(reply)))
  {
    TypedParts(data, more);
    AnyCommand(st, data, ['0' as int, '0' as int], more);
    AfterPlus(Frame(reply));
  }

  lemma Spelled(data: string, typed: string, frame: string, reply: string)
    requires typed == "$" + data + "#00+" && reply == "+" + frame
    ensures Text(typed) == Typed(Text(data)) && Text(reply) == [PLUS] + Text(frame)
  {
    TextAppend("$" + data, "#00+");
    TextAppend("$", data);
    TextAppend("+", frame);
  }

  // ---------------------------------------------------------------- reading

  lemma ReadAt1A(data: seq<Byte>, addr: seq<Byte>, one: seq<Byte>, mem: Memory)
    requires Number(addr) && IntOf(addr) == 0x1a && Number(one) && IntOf(one) == 1
    requires Sendable(data) && Layout(data + [0], addr, one) && (data + [0])[0] == 'm' as int
    ensures Exchanged(mem, Typed(data), mem,
                      [PLUS] + Frame(if 0x1a in mem then ToHex([mem[0x1a]]) else StatusPacket(3)))
  {
    ReadHandled(data + [0], addr, one, mem);
    var reply := ReadReply(mem, 0x1a, 1);
    ExchangedAs(mem, data, mem, reply);
    if 0x1a in mem {
      assert BytesAt(mem, 0x1a, 1) == [mem[0x1a]];
    } else {
      assert !Mapped(mem, 0x1a, 1);
    }
  }

  lemma ReadTyped(mem: Memory)
    ensures Exchanged(mem, Typed(Text("m1A,1")), mem,
                      [PLUS] + Frame(if 0x1a in mem then ToHex([mem[0x1a]]) else StatusPacket(3)))
  {
    var data, addr, one := Text("m1A,1"), Text("1A"), Text("1");
    TwoDigits(addr, 1, 10);
    OneValue(one);
    assert data + [0] == ['m' as int] + addr + [COMMA] + one + [0];
    LaidOut(data + [0], 'm' as int, addr, one, [0]);
    ReadAt1A(data, addr, one, mem);
  }

  /** Reading the byte 0xab at address 0x1a. */
  lemma ReadSession(mem: Memory)
    requires 0x1a in mem && mem[0x1a] == 0xab
    ensures Exchanged(mem, Text("$m1A,1#00+"), mem, Text("+$ab#c3"))
  {
    ReadTyped(mem);
    HexSpelled();
    FrameOfByte();
    Spelled("m1A,1", "$m1A,1#00+", "$ab#c3", "+$ab#c3");
  }

  /** Reading a byte that is not there. */
  lemma FaultSession(mem: Memory)
    requires 0x1a !in mem
    ensures Exchanged(mem, Text("$m1A,1#00+"), mem, Text("+$E03#a8"))
  {
    ReadTyped(mem);
    FrameOfError(3);
    Spelled("m1A,1", "$m1A,1#00+", "$E03#a8", "+$E03#a8");
  }

  // ---------------------------------------------------------------- writing

  lemma WriteAt1A(mem: Memory, addr: seq<Byte>, one: seq<Byte>, digits: seq<Byte>)
    requires Number(addr) && IntOf(addr) == 0x1a && Number(one) && Count(one) == 1 && 0x1a in mem
    requires AllHex(digits) && |digits| == 2 && FromHex(digits) == [0xcd] && |WritePacket(addr, one, digits)| < BUFMAX
    ensures Exchanged(mem, Typed(WritePacket(addr, one, digits)), mem[0x1a := 0xcd], [PLUS] + Frame(StatusPacket(0)))
  {
    var data := WritePacket(addr, one, digits);
    PacketsSendable(addr, one, digits);
    WriteLaidOut(addr, one, digits);
    WriteHandled(data + [0], addr, one, digits, mem);
    OneStored(mem, Handle(data + [0], mem).mem, 0x1a, FromHex(digits));
    ExchangedAs(mem, data, mem[0x1a := 0xcd], StatusPacket(0));
  }

  lemma WriteTyped(mem: Memory)
    requires 0x1a in mem
    ensures Exchanged(mem, Typed(Text("M1a,1:Cd")), mem[0x1a := 0xcd], [PLUS] + Frame(StatusPacket(0)))
  {
    var addr, one, digits := Text("1a"), Text("1"), Text("Cd");
    TwoDigits(addr, 1, 10);
    OneValue(one);
    PackDigits(digits[0], digits[1]);
    assert FromHex(digits) == [0xcd];
    assert Text("M1a,1:Cd") == WritePacket(addr, one, digits);
    WriteAt1A(mem, addr, one, digits);
  }

  /** Writing the byte 0xcd there. */
  lemma WriteSession(mem: Memory)
    requires 0x1a in mem
    ensures Exchanged(mem, Text("$M1a,1:Cd#00+"), mem[0x1a := 0xcd], Text("+$OK#9a"))
  {
    WriteTyped(mem);
    FrameOfOk();
    Spelled("M1a,1:Cd", "$M1a,1:Cd#00+", "$OK#9a", "+$OK#9a");
  }

  // ---------------------------------------------------------------- the rest

  lemma BadReadTyped(mem: Memory)
    ensures Exchanged(mem, Typed(Text("m1a")), mem, [PLUS] + Frame(StatusPacket(1)))
  {
    RunUnique(Text("m1a") + [0], 1, 2);
    ExchangedAs(mem, Text("m1a"), mem, StatusPacket(1));
  }

  /** A read without a length. */
  lemma BadReadSession(mem: Memory)
    ensures Exchanged(mem, Text("$m1a#00+"), mem, Text("+$E01#a6"))
  {
    BadReadTyped(mem);
    FrameOfError(1);
    Spelled("m1a", "$m1a#00+", "$E01#a6", "+$E01#a6");
  }

  lemma BadWriteTyped(mem: Memory)
    ensures Exchanged(mem, Typed(Text("M1a,1")), mem, [PLUS] + Frame(StatusPacket(2)))
  {
    var buf := Text("M1a,1") + [0];
    RunUnique(buf, 1, 2);
    RunUnique(buf, 4, 1);
    ParseStops(buf, 2, 1, true);
    ExchangedAs(mem, Text("M1a,1"), mem, StatusPacket(2));
  }

  /** A write without data. */
  lemma BadWriteSession(mem: Memory)
    ensures Exchanged(mem, Text("$M1a,1#00+"), mem, Text("+$E02#a7"))
  {
    BadWriteTyped(mem);
    FrameOfError(2);
    Spelled("M1a,1", "$M1a,1#00+", "$E02#a7", "+$E02#a7");
  }

  /** A command the stub does not know is answered with an empty packet. */
  lemma UnknownSession(mem: Memory)
    ensures Exchanged(mem, Text("$q#00+"), mem, Text("+$#00"))
  {
    ExchangedAs(mem, Text("q"), mem, []);
    FrameOfNothing();
    Spelled("q", "$q#00+", "$#00", "+$#00");
  }
}
