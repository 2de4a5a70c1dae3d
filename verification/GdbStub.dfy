/**
 The debugger stub of libgloss (`debug.c`): packets `$data#checksum` over a serial line, and
 the commands that read and write memory in hexadecimal.

 The line is a sequence of bytes still to come and one of bytes sent.  Reading past the end
 of the former would wait for ever; that is `Blocked` here.
 */
module GdbStub {
  import opened Bits
  import opened Common

  const BUFMAX: nat := 2048
  const DOLLAR: Byte := '$' as int
  const HASH: Byte := '#' as int
  const PLUS: Byte := '+' as int
  const COMMA: Byte := ',' as int
  const COLON: Byte := ':' as int

  // ---------------------------------------------------------------- hexadecimal digits

  /** The number a hexadecimal digit stands for; -1 for any other character. */
  function HexToDigit(c: int): int {
    if c == 0 then 0
    else if '0' as int <= c <= '9' as int then c - '0' as int
    else if 'a' as int <= c <= 'f' as int then c - 'a' as int + 10
    else if 'A' as int <= c <= 'F' as int then c - 'A' as int + 10
    else -1
  }

  function DigitToHex(d: nat): (c: Byte)
    requires d < 16
    ensures HexToDigit(c) == d && c < 128 && c != 0
    ensures '0' as int <= c <= '9' as int || 'a' as int <= c <= 'f' as int
  {
    if d < 10 then '0' as int + d else 'a' as int + d - 10
  }

  predicate IsHex(c: Byte) { c != 0 && HexToDigit(c) >= 0 }

  /** The digits of either case stand for their values. */
  lemma DigitValues(d: nat)
    requires d < 16
    ensures DigitToHex(d) == "0123456789abcdef"[d] as int
    ensures HexToDigit("0123456789abcdef"[d] as int) == HexToDigit("0123456789ABCDEF"[d] as int) == d
  {
  }

  /** No other character is a digit, though a NUL counts as 0. */
  lemma OnlyDigits(c: Byte)
    ensures IsHex(c) <==> c as char in "0123456789abcdefABCDEF"
    ensures HexToDigit(0) == 0 && (!IsHex(c) && c != 0 ==> HexToDigit(c) == -1)
  {
    var digits := "0123456789abcdefABCDEF";
    if '0' as int <= c <= '9' as int {
      assert digits[c - '0' as int] == c as char;
    } else if 'a' as int <= c <= 'f' as int {
      assert digits[c - 'a' as int + 10] == c as char;
    } else if 'A' as int <= c <= 'F' as int {
      assert digits[c - 'A' as int + 16] == c as char;
    }
  }

  /** Two digits packed into an `unsigned char`, a bad one counting as -1. */
  function Pack(hi: Byte, lo: Byte): Byte {
    BitOr(HexToDigit(hi) * 16 % 256, HexToDigit(lo) % 256) % 256
  }

  lemma PackDigits(hi: Byte, lo: Byte)
    requires IsHex(hi) && IsHex(lo)
    ensures Pack(hi, lo) == HexToDigit(hi) * 16 + HexToDigit(lo)
  {
    PackNibbles(HexToDigit(hi), HexToDigit(lo));
  }

  lemma PackNibbles(hi: nat, lo: nat)
    requires hi < 16 && lo < 16
    ensures BitOr(hi * 16 % 256, lo % 256) % 256 == hi * 16 + lo
  {
    var x := hi * 16;
    assert x % 256 == x && lo % 256 == lo && (x + lo) % 256 == x + lo;
    JoinNibbles(x, lo);
  }

  lemma JoinNibbles(x: nat, lo: nat)
    requires x % 16 == 0 && lo < 16
    ensures BitOr(x, lo) == x + lo
  {
    assert Pow2(4) == 16;
    OrDisjoint(x, lo, 4);
  }

  /** The two lower-case digits of a byte. */
  function HexByte(b: Byte): seq<Byte> { [DigitToHex(b / 16), DigitToHex(b % 16)] }

  lemma PackHexByte(b: Byte)
    ensures Pack(HexByte(b)[0], HexByte(b)[1]) == b
    ensures Mask7(HexByte(b)[0]) == HexByte(b)[0] && Mask7(HexByte(b)[1]) == HexByte(b)[1]
  {
    PackDigits(HexByte(b)[0], HexByte(b)[1]);
  }

  /** Lower-case hexadecimal. */
  function ToHex(bytes: seq<Byte>): (s: seq<Byte>)
    ensures |s| == 2 * |bytes| && AllHex(s)
  {
    if bytes == [] then [] else ToHex(bytes[..|bytes| - 1]) + HexByte(bytes[|bytes| - 1])
  }

  lemma {:induction false} ToHexAt(bytes: seq<Byte>, i: nat)
    requires i < |bytes|
    ensures ToHex(bytes)[2 * i] == HexByte(bytes[i])[0] && ToHex(bytes)[2 * i + 1] == HexByte(bytes[i])[1]
  {
    if i < |bytes| - 1 {
      ToHexAt(bytes[..|bytes| - 1], i);
    }
  }

  /** The number a string of digits denotes. */
  function HexValue(s: seq<Byte>): nat
    requires AllHex(s)
  {
    if s == [] then 0 else HexValue(s[..|s| - 1]) * 16 + HexToDigit(s[|s| - 1])
  }

  predicate AllHex(s: seq<Byte>) { forall i :: 0 <= i < |s| ==> IsHex(s[i]) }

  // ---------------------------------------------------------------- packets on the line

  function Mask7(b: Byte): Byte { b % 128 }

  function Masked(s: seq<Byte>): seq<Byte> { seq(|s|, i requires 0 <= i < |s| => Mask7(s[i])) }

  /** An `unsigned char` to which every byte is added. */
  function Checksum(s: seq<Byte>): Byte { if s == [] then 0 else Add(Checksum(s[..|s| - 1]), s[|s| - 1]) }

  function Add(x: Byte, y: Byte): Byte { (x + y) % 256 }

  function Total(s: seq<Byte>): nat { if s == [] then 0 else Total(s[..|s| - 1]) + s[|s| - 1] }

  /** The checksum is the sum of all bytes modulo 256. */
  lemma {:induction false} ChecksumIsTotal(s: seq<Byte>)
    ensures Checksum(s) == Total(s) % 256
  {
    if s != [] {
      var t := s[..|s| - 1];
      ChecksumIsTotal(t);
      AddMod(Total(t), s[|s| - 1]);
    }
  }

  lemma AddMod(x: nat, y: Byte)
    ensures Add(x % 256, y) == (x + y) % 256
  {
    var t := x % 256 + y;
    DivModUnique(x + y, 256, x / 256 + t / 256, t % 256);
  }

  /** The place of the first `c` among the first `n` bytes, its top bit ignored; `n` if there is none. */
  function Find(c: Byte, s: seq<Byte>, n: nat): (k: nat)
    requires n <= |s|
    ensures k <= n && (k < n ==> Mask7(s[k]) == c) && forall i :: 0 <= i < k ==> Mask7(s[i]) != c
  {
    if n == 0 then 0
    else
      var k := Find(c, s, n - 1);
      if k < n - 1 || Mask7(s[n - 1]) == c then k else n
  }

  /** Any place with those properties is the one found. */
  lemma FindUnique(c: Byte, s: seq<Byte>, n: nat, k: nat)
    requires k <= n <= |s| && (k < n ==> Mask7(s[k]) == c) && forall i :: 0 <= i < k ==> Mask7(s[i]) != c
    ensures Find(c, s, n) == k
  {
  }

  /** `$`, the data, `#` and two digits of checksum. */
  function Frame(data: seq<Byte>): seq<Byte> {
    [DOLLAR] + data + [HASH] + HexByte(Checksum(data))
  }

  /**
   What `getpacket` does with the bytes to come: it may wait for ever; it may return a
   packet, having read the two digits of its checksum; or it may return an overlong packet
   unterminated, when the running sum happens to be 255.
   */
  datatype Received =
    | Blocked
    | Got(data: seq<Byte>, hi: Byte, lo: Byte, rest: seq<Byte>)
    | Overrun(data: seq<Byte>, rest: seq<Byte>)

  function Receive(input: seq<Byte>): (r: Received)
    ensures r.Got? ==> |r.data| < BUFMAX
    decreases |input|
  {
    var i := Find(DOLLAR, input, |input|);
    if i == |input| then Blocked else Body(input[i + 1..])
  }

  /** The part after `$`. */
  function Body(s: seq<Byte>): (r: Received)
    ensures r.Got? ==> |r.data| < BUFMAX
    decreases |s|, 0
  {
    var k := Find(HASH, s, if |s| < BUFMAX then |s| else BUFMAX);
    if k == BUFMAX then
      if Checksum(Masked(s[..k])) == 255 then Overrun(Masked(s[..k]), s[k..]) else Receive(s[k..])
    else if |s| < k + 3 then Blocked
    else Got(Masked(s[..k]), Mask7(s[k + 1]), Mask7(s[k + 2]), s[k + 3..])
  }

  /** A packet that fills the buffer. */
  predicate Overlong(s: seq<Byte>) { BUFMAX <= |s| && Find(HASH, s, BUFMAX) == BUFMAX }

  /** What can be sent unchanged: 7-bit characters other than NUL and `#`, that fit the buffer. */
  predicate Sendable(data: seq<Byte>) {
    |data| < BUFMAX && forall i :: 0 <= i < |data| ==> 0 < data[i] < 128 && data[i] != HASH
  }

  /** Noise holds no `$`. */
  predicate IsNoise(s: seq<Byte>) { forall i :: 0 <= i < |s| ==> Mask7(s[i]) != DOLLAR }

  lemma MaskedSame(data: seq<Byte>)
    requires forall i :: 0 <= i < |data| ==> data[i] < 128
    ensures Masked(data) == data
  {
  }

  /** A frame is received as its data, with a checksum equal to the running sum, whatever surrounds it. */
  lemma FrameReceived(noise: seq<Byte>, data: seq<Byte>, more: seq<Byte>)
    requires IsNoise(noise) && Sendable(data)
    ensures var r := Receive(noise + Frame(data) + more);
            r.Got? && r.data == data && r.rest == more && Pack(r.hi, r.lo) == Checksum(data)
  {
    PackHexByte(Checksum(data));
    FrameRead(noise, data, HexByte(Checksum(data)), noise + Frame(data) + more, more);
  }

  /** Any packet is received up to its `#`, each byte without its top bit, whatever the checksum says. */
  lemma PacketRead(noise: seq<Byte>, data: seq<Byte>, digits: seq<Byte>, more: seq<Byte>)
    requires IsNoise(noise) && |data| < 2048 && |digits| == 2
    requires forall i :: 0 <= i < |data| ==> data[i] % 128 != '#' as int
    ensures var r := Receive(noise + ([DOLLAR] + data + [HASH] + digits) + more);
            && r.Got? && |r.data| == |data| && (forall i :: 0 <= i < |data| ==> r.data[i] == data[i] % 128)
            && r.hi == digits[0] % 128 && r.lo == digits[1] % 128 && r.rest == more
  {
    var input, s := noise + ([DOLLAR] + data + [HASH] + digits) + more, data + [HASH] + digits + more;
    FindUnique(DOLLAR, input, |input|, |noise|);
    assert input[|noise| + 1..] == s;
    FindUnique(HASH, s, if |s| < BUFMAX then |s| else BUFMAX, |data|);
    assert s[..|data|] == data && s[|data| + 3..] == more;
  }

  lemma FrameRead(noise: seq<Byte>, data: seq<Byte>, digits: seq<Byte>, input: seq<Byte>, more: seq<Byte>)
    requires IsNoise(noise) && Sendable(data) && |digits| == 2
    requires input == noise + ([DOLLAR] + data + [HASH] + digits) + more
    ensures Receive(input) == Got(data, Mask7(digits[0]), Mask7(digits[1]), more)
  {
    FindUnique(DOLLAR, input, |input|, |noise|);
    assert input[|noise| + 1..] == data + [HASH] + digits + more;
    BodyRead(data, digits, data + [HASH] + digits + more, more);
  }

  lemma BodyRead(data: seq<Byte>, digits: seq<Byte>, s: seq<Byte>, more: seq<Byte>)
    requires Sendable(data) && |digits| == 2 && s == data + [HASH] + digits + more
    ensures Body(s) == Got(data, Mask7(digits[0]), Mask7(digits[1]), more) && !Overlong(s)
  {
    FindUnique(HASH, s, if |s| < BUFMAX then |s| else BUFMAX, |data|);
    assert s[..|data|] == data && s[|data| + 3..] == more;
    MaskedSame(data);
  }

  /** A packet that fills the buffer is returned unterminated if its running sum is 255, and dropped otherwise. */
  lemma PassFull(s: seq<Byte>)
    requires Overlong(s)
    ensures var data := Masked(s[..BUFMAX]);
            Body(s) == if Checksum(data) == 255 then Overrun(data, s[BUFMAX..]) else Receive(s[BUFMAX..])
  {
  }

  function Copies(c: Byte, n: nat): seq<Byte> { seq(n, _ => c) }

  lemma {:induction false} CopiesTotal(c: Byte, n: nat)
    ensures Total(Copies(c, n)) == n * c
  {
    if n > 0 {
      assert Copies(c, n)[..n - 1] == Copies(c, n - 1);
      CopiesTotal(c, n - 1);
    }
  }

  /** 2047 times the letter a and a grave accent: a packet returned unterminated, whatever follows it. */
  lemma OverlongReturned(more: seq<Byte>)
    ensures var data := Copies('a' as int, 2047) + ['`' as int];
            Receive([DOLLAR] + data + more) == Overrun(data, more)
  {
    LettersSum();
    var data := Copies('a' as int, 2047) + ['`' as int];
    OverlongStarted(data, more, [DOLLAR] + data + more);
  }

  lemma LettersSum()
    ensures Checksum(Copies('a' as int, 2047) + ['`' as int]) == 255
  {
    var letters := Copies('a' as int, 2047);
    CopiesTotal('a' as int, 2047);
    assert (letters + ['`' as int])[..2047] == letters;
    ChecksumIsTotal(letters + ['`' as int]);
  }

  lemma OverlongStarted(data: seq<Byte>, more: seq<Byte>, input: seq<Byte>)
    requires |data| == BUFMAX && Checksum(data) == 255 && input == [DOLLAR] + data + more
    requires forall i :: 0 <= i < |data| ==> data[i] < 128 && data[i] != HASH
    ensures Receive(input) == Overrun(data, more)
  {
    assert input[1..] == data + more;
    OverlongRead(data, more, input[1..]);
    FindUnique(DOLLAR, input, |input|, 0);
  }

  lemma OverlongRead(data: seq<Byte>, more: seq<Byte>, s: seq<Byte>)
    requires |data| == BUFMAX && s == data + more && Checksum(data) == 255
    requires forall i :: 0 <= i < |data| ==> data[i] < 128 && data[i] != HASH
    ensures Body(s) == Overrun(data, more)
  {
    FindUnique(HASH, s, BUFMAX, BUFMAX);
    assert s[..BUFMAX] == data && s[BUFMAX..] == more;
    MaskedSame(data);
    PassFull(s);
  }

  /** What `putpacket` does with the answers to come: it sends the frame until one of them is `+`. */
  datatype Sent = Waiting | Sent(output: seq<Byte>, rest: seq<Byte>)

  function Send(data: seq<Byte>, replies: seq<Byte>): Sent {
    var k := Find(PLUS, replies, |replies|);
    if k == |replies| then Waiting else Sent(Repeat(Frame(data), k + 1), replies[k + 1..])
  }

  function Repeat(s: seq<Byte>, n: nat): seq<Byte> { if n == 0 then [] else Repeat(s, n - 1) + s }

  lemma SentOnce(data: seq<Byte>, more: seq<Byte>)
    ensures Send(data, [PLUS] + more) == Sent(Frame(data), more)
  {
    FindUnique(PLUS, [PLUS] + more, |more| + 1, 0);
    assert Repeat(Frame(data), 1) == Frame(data);
    assert ([PLUS] + more)[1..] == more;
  }

  lemma {:induction false} RepeatAt(s: seq<Byte>, n: nat, j: nat)
    requires j < n
    ensures |Repeat(s, n)| == n * |s| && 0 <= j * |s| <= j * |s| + |s| <= n * |s|
    ensures Repeat(s, n)[j * |s|..j * |s| + |s|] == s
  {
    var before, at := Repeat(s, n - 1), j * |s|;
    RepeatLength(s, n - 1);
    RepeatLength(s, n);
    MulMonotone(j + 1, n, |s|);
    assert (j + 1) * |s| == at + |s|;
    if j < n - 1 {
      RepeatAt(s, n - 1, j);
      InFront(before, s, at, at + |s|);
    } else {
      assert (before + s)[at..at + |s|] == s;
    }
  }

  lemma {:induction false} RepeatLength(s: seq<Byte>, n: nat)
    ensures |Repeat(s, n)| == n * |s|
  {
    if n > 0 {
      RepeatLength(s, n - 1);
      assert n * |s| == (n - 1) * |s| + |s|;
    }
  }

  lemma InFront(a: seq<Byte>, b: seq<Byte>, i: nat, j: nat)
    requires i <= j <= |a|
    ensures (a + b)[i..j] == a[i..j]
  {
  }

  /** The frame goes out once for every answer up to the first `+`. */
  lemma Retransmits(data: seq<Byte>, answers: seq<Byte>, more: seq<Byte>, j: nat)
    requires (forall i :: 0 <= i < |answers| ==> answers[i] % 128 != '+' as int) && j <= |answers|
    ensures var r, size := Send(data, answers + ['+' as int] + more), |data| + 4;
            && r.Sent? && r.rest == more && |r.output| == (|answers| + 1) * size
            && 0 <= j * size <= j * size + size <= |r.output| && r.output[j * size..j * size + size] == Frame(data)
  {
    var replies := answers + ['+' as int] + more;
    FindUnique(PLUS, replies, |replies|, |answers|);
    assert replies[|answers| + 1..] == more;
    RepeatAt(Frame(data), |answers| + 1, j);
  }

  // ---------------------------------------------------------------- commands

  type Memory = map<int, Byte>

  /** The length of the run of digits at `p`. */
  function Run(buf: seq<Byte>, p: nat): (n: nat)
    requires p <= |buf|
    ensures p + n <= |buf| && (p + n < |buf| ==> !IsHex(buf[p + n]))
    ensures forall i :: p <= i < p + n ==> IsHex(buf[i])
    decreases |buf| - p
  {
    if p < |buf| && IsHex(buf[p]) then Run(buf, p + 1) + 1 else 0
  }

  lemma RunUnique(buf: seq<Byte>, p: nat, n: nat)
    requires p + n < |buf| && !IsHex(buf[p + n]) && forall i :: p <= i < p + n ==> IsHex(buf[i])
    ensures Run(buf, p) == n
  {
  }

  /** The byte at `p`; a NUL stops all scanning before the end of the buffer. */
  function At(buf: seq<Byte>, p: nat): Byte { if p < |buf| then buf[p] else 0 }

  /** What 32 bits hold, read as a signed number. */
  function SignedInt(x: nat): int {
    if x < 0x8000_0000 then x else (x + 0x8000_0000) % 0x1_0000_0000 - 0x8000_0000
  }

  /** The number that fits 32 bits and agrees with `x` in them. */
  lemma SignedIntIs(x: nat)
    ensures -0x8000_0000 <= SignedInt(x) < 0x8000_0000 && (x - SignedInt(x)) % 0x1_0000_0000 == 0
  {
    if x >= 0x8000_0000 {
      DivMod(x + 0x8000_0000, 0x1_0000_0000);
      var q := (x + 0x8000_0000) / 0x1_0000_0000;
      assert x - SignedInt(x) == q * 0x1_0000_0000;
    }
  }

  /** The number at `p`, which `n` digits spell. */
  function IntAt(buf: seq<Byte>, p: nat, n: nat): int
    requires p + n <= |buf| && AllHex(buf[p..p + n])
  {
    SignedInt(HexValue(buf[p..p + n]))
  }

  /** The address and length of a command, and where its data starts. */
  datatype Parsed = Malformed | Fields(addr: int, length: int, at: nat)

  /** `%x,%x`, and `:` if there is to be data. */
  function Parse(buf: seq<Byte>, colon: bool): (r: Parsed)
    requires 1 <= |buf|
    ensures r.Fields? ==> r.at <= |buf|
  {
    var n := Run(buf, 1);
    if n == 0 || At(buf, 1 + n) != COMMA then Malformed
    else
      var k := Run(buf, 2 + n);
      var q := 2 + n + k;
      if k == 0 || (colon && At(buf, q) != COLON) then Malformed
      else Fields(IntAt(buf, 1, n), IntAt(buf, 2 + n, k), if colon then q + 1 else q)
  }

  // ---------------------------------------------------------------- memory

  predicate Mapped(mem: Memory, addr: int, n: int) { forall p :: addr <= p < addr + n ==> p in mem }

  function BytesAt(mem: Memory, addr: int, n: nat): seq<Byte>
    requires Mapped(mem, addr, n)
  {
    seq(n, i requires 0 <= i < n => mem[addr + i])
  }

  /** `OK`, or `E` and two digits. */
  function StatusPacket(val: nat): seq<Byte>
    requires val < 256
  {
    if val == 0 then ['O' as int, 'K' as int] else ['E' as int] + HexByte(val)
  }

  /** The reply to `m`: the bytes in hexadecimal, or error 3 if one of them is not there. */
  function ReadReply(mem: Memory, addr: int, n: int): seq<Byte> {
    if !Mapped(mem, addr, n) then StatusPacket(3) else ToHex(BytesAt(mem, addr, if n < 0 then 0 else n))
  }

  /** Memory after storing `n` bytes given in hexadecimal, up to the first address that is not there. */
  function StoreHex(mem: Memory, addr: int, buf: seq<Byte>, at: nat, n: nat): (r: (Memory, bool))
    requires at + 2 * n <= |buf|
    ensures r.1 == Mapped(mem, addr, n) && r.0.Keys == mem.Keys
    ensures forall p :: p in mem && !(addr <= p < addr + n) ==> r.0[p] == mem[p]
    ensures r.1 ==> forall i :: 0 <= i < n ==> r.0[addr + i] == Pack(buf[at + 2 * i], buf[at + 2 * i + 1])
  {
    if n == 0 then (mem, true)
    else
      var (m, ok) := StoreHex(mem, addr, buf, at, n - 1);
      var p := addr + n - 1;
      if ok && p in m then (m[p := Pack(buf[at + 2 * n - 2], buf[at + 2 * n - 1])], true)
      else (m, false)
  }

  /**
   What a command does: something not specified, as it overruns a buffer or reads what is
   left there of older packets; work of target code outside this file; or new memory and a reply.
   */
  datatype Handled = Unspecified | Delegated | Reply(mem: Memory, data: seq<Byte>)

  const TARGET_COMMANDS: set<int> :=
    {'?' as int, 'd' as int, 'g' as int, 'G' as int, 'c' as int, 'k' as int, 'r' as int}

  function HandleRead(buf: seq<Byte>, mem: Memory): Handled
    requires 1 <= |buf|
  {
    match Parse(buf, false)
    case Malformed => Reply(mem, StatusPacket(1))
    case Fields(addr, length, _) =>
      if 2 * length + 1 > BUFMAX then Unspecified else Reply(mem, ReadReply(mem, addr, length))
  }

  /** The end address, 0 for a fault, decides the reply; so a write that ends at address 0 is reported as one. */
  function HandleWrite(buf: seq<Byte>, mem: Memory): Handled
    requires 1 <= |buf|
  {
    match Parse(buf, true)
    case Malformed => Reply(mem, StatusPacket(2))
    case Fields(addr, length, at) =>
      var n := if length < 0 then 0 else length;
      if at + 2 * n > |buf| then Unspecified
      else
        var (mem1, ok) := StoreHex(mem, addr, buf, at, n);
        Reply(mem1, StatusPacket(if ok && addr + n != 0 then 0 else 3))
  }

  function Handle(buf: seq<Byte>, mem: Memory): Handled
    requires 1 <= |buf|
  {
    if buf[0] == 'm' as int then HandleRead(buf, mem)
    else if buf[0] == 'M' as int then HandleWrite(buf, mem)
    else if buf[0] in TARGET_COMMANDS then Delegated
    else Reply(mem, [])
  }

  /** The commands that are left to code of the target. */
  lemma DelegatedExactly(buf: seq<Byte>, mem: Memory)
    requires 1 <= |buf|
    ensures Handle(buf, mem).Delegated? <==> buf[0] as char in "?dgGckr"
  {
    assert buf[0] in TARGET_COMMANDS ==> buf[0] as char in "?dgGckr";
    assert buf[0] as char in "?dgGckr" ==> buf[0] in TARGET_COMMANDS;
  }

  // ---------------------------------------------------------------- writing and reading back

  /** The bytes a string of digits stands for, in either case. */
  function FromHex(s: seq<Byte>): seq<Byte> {
    seq(|s| / 2, i requires 0 <= i < |s| / 2 => Pack(s[2 * i], s[2 * i + 1]))
  }

  lemma HexRoundTrip(bytes: seq<Byte>)
    ensures FromHex(ToHex(bytes)) == bytes
  {
    forall i | 0 <= i < |bytes|
      ensures FromHex(ToHex(bytes))[i] == bytes[i]
    {
      ToHexAt(bytes, i);
      PackHexByte(bytes[i]);
    }
  }

  /** A number in hexadecimal, of whatever size. */
  predicate Number(s: seq<Byte>) { s != [] && AllHex(s) }

  /** What a C `int` makes of it. */
  function IntOf(s: seq<Byte>): int
    requires AllHex(s)
  {
    SignedInt(HexValue(s))
  }

  /** As a number of bytes: none if negative. */
  function Count(s: seq<Byte>): nat
    requires AllHex(s)
  {
    if IntOf(s) < 0 then 0 else IntOf(s)
  }

  lemma NumberAt(buf: seq<Byte>, p: nat, s: seq<Byte>)
    requires p + |s| < |buf| && buf[p..p + |s|] == s && Number(s) && !IsHex(buf[p + |s|])
    ensures Run(buf, p) == |s| && IntAt(buf, p, |s|) == IntOf(s)
  {
    assert forall i :: p <= i < p + |s| ==> buf[i] == s[i - p];
    RunUnique(buf, p, |s|);
  }

  /** Where the parts of a command lie in the buffer. */
  predicate Layout(buf: seq<Byte>, addr: seq<Byte>, length: seq<Byte>) {
    var q := 2 + |addr|;
    && q + |length| < |buf| && buf[1..1 + |addr|] == addr && buf[1 + |addr|] == COMMA
    && buf[q..q + |length|] == length && !IsHex(buf[q + |length|])
  }

  lemma LaidOut(buf: seq<Byte>, c: Byte, addr: seq<Byte>, length: seq<Byte>, tail: seq<Byte>)
    requires buf == [c] + addr + [COMMA] + length + tail && tail != [] && !IsHex(tail[0])
    ensures Layout(buf, addr, length) && buf[0] == c && buf[2 + |addr| + |length|..] == tail
  {
  }

  lemma ParseFields(buf: seq<Byte>, addr: seq<Byte>, length: seq<Byte>, colon: bool)
    requires Number(addr) && Number(length) && Layout(buf, addr, length)
    requires colon ==> buf[2 + |addr| + |length|] == COLON
    ensures Parse(buf, colon) == Fields(IntOf(addr), IntOf(length), |addr| + |length| + if colon then 3 else 2)
  {
    var n, k := |addr|, |length|;
    NumberAt(buf, 1, addr);
    NumberAt(buf, 2 + n, length);
    ParseRuns(buf, n, k, colon, IntOf(addr), IntOf(length));
  }

  lemma ParseRuns(buf: seq<Byte>, n: nat, k: nat, colon: bool, x: int, y: int)
    requires 0 < n && 2 + n + k < |buf| && 0 < k
    requires Run(buf, 1) == n && buf[1 + n] == COMMA && Run(buf, 2 + n) == k && (colon ==> buf[2 + n + k] == COLON)
    requires IntAt(buf, 1, n) == x && IntAt(buf, 2 + n, k) == y
    ensures Parse(buf, colon) == Fields(x, y, n + k + if colon then 3 else 2)
  {
  }

  lemma ParseStops(buf: seq<Byte>, n: nat, k: nat, colon: bool)
    requires 0 < n && 2 + n + k < |buf| && Run(buf, 1) == n && buf[1 + n] == COMMA && Run(buf, 2 + n) == k
    requires k == 0 || (colon && buf[2 + n + k] != COLON)
    ensures Parse(buf, colon) == Malformed
  {
  }

  /** Two numbers with a comma between them, and a colon behind if there is to be data. */
  ghost predicate HasFields(buf: seq<Byte>, colon: bool) {
    exists addr, length :: FieldsAre(buf, colon, addr, length)
  }

  predicate FieldsAre(buf: seq<Byte>, colon: bool, addr: seq<Byte>, length: seq<Byte>) {
    Number(addr) && Number(length) && Layout(buf, addr, length) && (colon ==> buf[2 + |addr| + |length|] == COLON)
  }

  /** A command is malformed exactly if it does not start that way. */
  lemma ParseExact(buf: seq<Byte>, colon: bool)
    requires 1 < |buf| && buf[|buf| - 1] == 0
    ensures Parse(buf, colon).Fields? <==> HasFields(buf, colon)
  {
    if Parse(buf, colon).Fields? {
      ParsedFields(buf, colon);
    }
    if HasFields(buf, colon) {
      var addr, length :| FieldsAre(buf, colon, addr, length);
      ParseFields(buf, addr, length, colon);
    }
  }

  lemma ParsedFields(buf: seq<Byte>, colon: bool)
    requires 1 < |buf| && buf[|buf| - 1] == 0 && Parse(buf, colon).Fields?
    ensures HasFields(buf, colon)
  {
    var n := Run(buf, 1);
    var k := Run(buf, 2 + n);
    var addr, length := buf[1..1 + n], buf[2 + n..2 + n + k];
    assert 2 + n + k < |buf| by { assert !IsHex(buf[|buf| - 1]); }
    assert Number(addr) && Number(length);
    assert Layout(buf, addr, length);
    assert FieldsAre(buf, colon, addr, length);
  }

  /** Just the `bytes` at `addr` have been stored. */
  ghost predicate Stored(mem: Memory, mem1: Memory, addr: int, bytes: seq<Byte>) {
    && mem1.Keys == mem.Keys && Mapped(mem1, addr, |bytes|)
    && (forall i :: 0 <= i < |bytes| ==> mem1[addr + i] == bytes[i])
    && forall p :: p in mem && !(addr <= p < addr + |bytes|) ==> mem1[p] == mem[p]
  }

  lemma StoreHexStores(mem: Memory, addr: int, buf: seq<Byte>, at: nat, digits: seq<Byte>, n: nat)
    requires at + |digits| <= |buf| && buf[at..at + |digits|] == digits && |digits| == 2 * n && Mapped(mem, addr, n)
    ensures Stored(mem, StoreHex(mem, addr, buf, at, n).0, addr, FromHex(digits))
  {
    var mem1 := StoreHex(mem, addr, buf, at, n).0;
    forall i | 0 <= i < n
      ensures mem1[addr + i] == FromHex(digits)[i]
    {
      SameDigits(buf, at, digits, i);
    }
  }

  lemma StoredReply(mem: Memory, mem1: Memory, addr: int, bytes: seq<Byte>)
    requires Stored(mem, mem1, addr, bytes)
    ensures ReadReply(mem1, addr, |bytes|) == ToHex(bytes)
  {
    StoredBytes(mem1, addr, bytes);
  }

  lemma StoredBytes(mem1: Memory, addr: int, bytes: seq<Byte>)
    requires Mapped(mem1, addr, |bytes|) && forall i :: 0 <= i < |bytes| ==> mem1[addr + i] == bytes[i]
    ensures BytesAt(mem1, addr, |bytes|) == bytes
  {
  }

  lemma SameDigits(buf: seq<Byte>, at: nat, digits: seq<Byte>, i: nat)
    requires at + |digits| <= |buf| && buf[at..at + |digits|] == digits && 2 * i + 1 < |digits|
    ensures Pack(buf[at + 2 * i], buf[at + 2 * i + 1]) == FromHex(digits)[i]
  {
    assert buf[at + 2 * i] == digits[2 * i] && buf[at + 2 * i + 1] == digits[2 * i + 1];
  }

  /**
   `M`, for numbers of any size: the reply is OK exactly when every address is there and the
   write does not end at address 0.
   */
  lemma WriteHandled(buf: seq<Byte>, addr: seq<Byte>, length: seq<Byte>, digits: seq<Byte>, mem: Memory)
    requires Number(addr) && Number(length) && |digits| == 2 * Count(length)
    requires Layout(buf, addr, length) && buf[0] == 'M' as int && [COLON] + digits <= buf[2 + |addr| + |length|..]
    ensures WriteAnswered(Handle(buf, mem), mem, IntOf(addr), Count(length), digits)
  {
    var at := |addr| + |length| + 3;
    DataAt(buf, at, digits);
    ParseFields(buf, addr, length, true);
    WriteParsed(buf, mem, IntOf(addr), IntOf(length), at, digits);
  }

  /** What a write of `n` bytes does: all of them or, on a fault, some of them, and nothing elsewhere. */
  ghost predicate WriteAnswered(h: Handled, mem: Memory, addr: int, n: nat, digits: seq<Byte>) {
    && h.Reply? && h.mem.Keys == mem.Keys
    && h.data == StatusPacket(if Mapped(mem, addr, n) && addr + n != 0 then 0 else 3)
    && (Mapped(mem, addr, n) ==> Stored(mem, h.mem, addr, FromHex(digits)))
    && (forall p :: p in mem && !(addr <= p < addr + n) ==> h.mem[p] == mem[p])
  }

  lemma WriteParsed(buf: seq<Byte>, mem: Memory, addr: int, length: int, at: nat, digits: seq<Byte>)
    requires 1 <= |buf| && buf[0] == 'M' as int && Parse(buf, true) == Fields(addr, length, at)
    requires at + |digits| <= |buf| && buf[at..at + |digits|] == digits
    requires |digits| == 2 * if length < 0 then 0 else length
    ensures WriteAnswered(Handle(buf, mem), mem, addr, if length < 0 then 0 else length, digits)
  {
    var n := if length < 0 then 0 else length;
    if Mapped(mem, addr, n) {
      StoreHexStores(mem, addr, buf, at, digits, n);
    }
  }

  /** So a write of nothing at address 0 is reported as a fault, though nothing went wrong. */
  lemma EmptyWriteAtZero(mem: Memory)
    ensures var none := ['M' as int, '0' as int, COMMA, '0' as int, COLON, 0];
            Handle(none, mem).Reply? && Handle(none, mem).data == StatusPacket(3)
  {
    var zero: seq<Byte> := ['0' as int];
    assert zero[..0] == [];
    assert HexValue(zero) == 0;
    var none := ['M' as int, '0' as int, COMMA, '0' as int, COLON, 0];
    LaidOut(none, 'M' as int, zero, zero, [COLON, 0]);
    WriteHandled(none, zero, zero, [], mem);
  }

  /** And so is a write of one byte just below address 0, `Mffffffff,1:41`, though the byte is stored. */
  lemma WriteEndingAtZero(mem: Memory)
    requires -1 in mem
    ensures var buf := ['M' as int] + Eight('f' as int) + [COMMA, '1' as int] + [COLON, '4' as int, '1' as int, 0];
            Handle(buf, mem) == Reply(mem[-1 := 0x41], StatusPacket(3))
  {
    var addr, one: seq<Byte>, digits: seq<Byte> := Eight('f' as int), ['1' as int], ['4' as int, '1' as int];
    EightValue();
    OneValue(one);
    PackDigits(digits[0], digits[1]);
    var buf := ['M' as int] + addr + [COMMA, '1' as int] + [COLON, '4' as int, '1' as int, 0];
    assert buf == ['M' as int] + addr + [COMMA] + one + [COLON, '4' as int, '1' as int, 0];
    LaidOut(buf, 'M' as int, addr, one, [COLON, '4' as int, '1' as int, 0]);
    assert [COLON] + digits <= [COLON, '4' as int, '1' as int, 0];
    assert FromHex(digits) == [0x41];
    LastByteWritten(buf, addr, one, digits, mem);
  }

  lemma LastByteWritten(buf: seq<Byte>, addr: seq<Byte>, length: seq<Byte>, digits: seq<Byte>, mem: Memory)
    requires Number(addr) && IntOf(addr) == -1 && Number(length) && Count(length) == 1 && -1 in mem
    requires |digits| == 2 && FromHex(digits) == [0x41]
    requires Layout(buf, addr, length) && buf[0] == 'M' as int && [COLON] + digits <= buf[2 + |addr| + |length|..]
    ensures Handle(buf, mem) == Reply(mem[-1 := 0x41], StatusPacket(3))
  {
    WriteHandled(buf, addr, length, digits, mem);
    OneStored(mem, Handle(buf, mem).mem, -1, FromHex(digits));
  }

  lemma OneStored(mem: Memory, mem1: Memory, addr: int, bytes: seq<Byte>)
    requires addr in mem && |bytes| == 1 && Stored(mem, mem1, addr, bytes)
    ensures mem1 == mem[addr := bytes[0]]
  {
    assert mem1[addr + 0] == bytes[0];
    assert forall p :: p in mem && p != addr ==> mem1[p] == mem[p];
    assert mem1 == mem[addr := bytes[0]];
  }

  function Eight(c: Byte): seq<Byte> { [c, c, c, c, c, c, c, c] }

  lemma EightValue()
    ensures Number(Eight('f' as int)) && IntOf(Eight('f' as int)) == -1
  {
    var s := Eight('f' as int);
    assert HexValue(s[..0]) == 0;
    assert HexValue(s[..1]) == 0xf by { assert s[..1][..0] == s[..0]; }
    assert HexValue(s[..2]) == 0xff by { assert s[..2][..1] == s[..1]; }
    assert HexValue(s[..3]) == 0xfff by { assert s[..3][..2] == s[..2]; }
    assert HexValue(s[..4]) == 0xffff by { assert s[..4][..3] == s[..3]; }
    assert HexValue(s[..5]) == 0xfffff by { assert s[..5][..4] == s[..4]; }
    assert HexValue(s[..6]) == 0xffffff by { assert s[..6][..5] == s[..5]; }
    assert HexValue(s[..7]) == 0xfffffff by { assert s[..7][..6] == s[..6]; }
    assert s[..8] == s && s[..7] == s[..|s| - 1];
  }

  lemma OneValue(one: seq<Byte>)
    requires one == ['1' as int]
    ensures Number(one) && IntOf(one) == Count(one) == 1
  {
    assert one[..0] == [];
    assert HexValue(one) == 1;
  }

  lemma DataAt(buf: seq<Byte>, at: nat, digits: seq<Byte>)
    requires 0 < at <= |buf| && [COLON] + digits <= buf[at - 1..]
    ensures at + |digits| <= |buf| && buf[at..at + |digits|] == digits && buf[at - 1] == COLON
  {
    var s := buf[at - 1..];
    assert s[0] == COLON;
    assert s[..|digits| + 1][1..] == digits;
  }

  lemma ReadHandled(buf: seq<Byte>, addr: seq<Byte>, length: seq<Byte>, mem: Memory)
    requires Number(addr) && Number(length) && 2 * IntOf(length) + 1 <= 2048
    requires Layout(buf, addr, length) && buf[0] == 'm' as int
    ensures Handle(buf, mem) == Reply(mem, ReadReply(mem, IntOf(addr), IntOf(length)))
  {
    ParseFields(buf, addr, length, false);
  }

  // ---------------------------------------------------------------- the event loop

  /** The stub between two packets. */
  datatype State = State(mem: Memory, input: seq<Byte>, output: seq<Byte>)

  /** One turn of the loop: it may wait for ever, do what is not specified, hand over to target code, or go on. */
  datatype Turn = Pending | Unknown | HandedOver | Next(state: State)

  function Iterate(st: State): Turn {
    match Receive(st.input)
    case Blocked => Pending
    case Overrun(_, _) => Unknown
    case Got(data, _, _, rest) => Answer(st, data + [0], rest)
  }

  function Answer(st: State, buf: seq<Byte>, rest: seq<Byte>): Turn
    requires 1 <= |buf|
  {
    match Handle(buf, st.mem)
    case Unspecified => Unknown
    case Delegated => HandedOver
    case Reply(mem, data) =>
      match Send(data, rest)
      case Waiting => Pending
      case Sent(out, rest1) => Next(State(mem, rest1, st.output + [PLUS] + out))
  }

  /** Whatever its checksum says. */
  lemma AnyCommand(st: State, data: seq<Byte>, digits: seq<Byte>, more: seq<Byte>)
    requires Sendable(data) && |digits| == 2
    requires st.input == [] + ([DOLLAR] + data + [HASH] + digits) + ([PLUS] + more)
    ensures var h := Handle(data + [0], st.mem);
            h.Reply? ==> Iterate(st) == Next(State(h.mem, more, st.output + [PLUS] + Frame(h.data)))
  {
    FrameRead([], data, digits, st.input, [PLUS] + more);
    TurnReceived(st, data, [PLUS] + more);
    TurnAnswered(st, data + [0], more);
  }

  /** A debugger that sends one command and acknowledges the reply gets that reply. */
  lemma OneCommand(st: State, noise: seq<Byte>, data: seq<Byte>, more: seq<Byte>)
    requires IsNoise(noise) && Sendable(data) && st.input == noise + Frame(data) + ([PLUS] + more)
    ensures var h := Handle(data + [0], st.mem);
            h.Reply? ==> Iterate(st) == Next(State(h.mem, more, st.output + [PLUS] + Frame(h.data)))
  {
    FrameReceived(noise, data, [PLUS] + more);
    TurnReceived(st, data, [PLUS] + more);
    TurnAnswered(st, data + [0], more);
  }

  lemma TurnReceived(st: State, data: seq<Byte>, rest: seq<Byte>)
    requires var r := Receive(st.input); r.Got? && r.data == data && r.rest == rest
    ensures Iterate(st) == Answer(st, data + [0], rest)
  {
  }

  lemma TurnAnswered(st: State, buf: seq<Byte>, more: seq<Byte>)
    requires 1 <= |buf|
    ensures var h := Handle(buf, st.mem);
            h.Reply? ==> Answer(st, buf, [PLUS] + more) == Next(State(h.mem, more, st.output + [PLUS] + Frame(h.data)))
  {
    var h := Handle(buf, st.mem);
    if h.Reply? {
      SentOnce(h.data, more);
    }
  }

  function WritePacket(addr: seq<Byte>, length: seq<Byte>, digits: seq<Byte>): seq<Byte> {
    ['M' as int] + addr + [COMMA] + length + ([COLON] + digits)
  }

  function ReadPacket(addr: seq<Byte>, length: seq<Byte>): seq<Byte> {
    ['m' as int] + addr + [COMMA] + length
  }

  lemma HexSendable(s: seq<Byte>)
    requires AllHex(s)
    ensures forall i :: 0 <= i < |s| ==> 0 < s[i] < 128 && s[i] != HASH
  {
    forall i | 0 <= i < |s|
      ensures 0 < s[i] < 128 && s[i] != HASH
    {
      assert IsHex(s[i]);
    }
  }

  lemma PacketsSendable(addr: seq<Byte>, length: seq<Byte>, digits: seq<Byte>)
    requires AllHex(addr) && AllHex(length) && AllHex(digits)
    ensures |WritePacket(addr, length, digits)| < BUFMAX ==> Sendable(WritePacket(addr, length, digits))
    ensures |ReadPacket(addr, length)| < BUFMAX ==> Sendable(ReadPacket(addr, length))
  {
    HexSendable(addr);
    HexSendable(length);
    HexSendable(digits);
  }

  /** A reply in hexadecimal gets through like any other packet. */
  lemma HexReplySendable(bytes: seq<Byte>)
    requires 2 * |bytes| < BUFMAX
    ensures Sendable(ToHex(bytes))
  {
    HexSendable(ToHex(bytes));
  }

  lemma WriteTurn(st: State, noise: seq<Byte>, addr: seq<Byte>, length: seq<Byte>, digits: seq<Byte>, more: seq<Byte>)
    returns (st1: State)
    requires IsNoise(noise) && Number(addr) && Number(length) && AllHex(digits)
    requires |digits| == 2 * Count(length) && |WritePacket(addr, length, digits)| < BUFMAX
    requires Mapped(st.mem, IntOf(addr), Count(length))
    requires st.input == noise + Frame(WritePacket(addr, length, digits)) + ([PLUS] + more)
    ensures Iterate(st) == Next(st1) && st1.input == more
    ensures Stored(st.mem, st1.mem, IntOf(addr), FromHex(digits))
    ensures st1.output == st.output + [PLUS] + Frame(StatusPacket(if IntOf(addr) + Count(length) != 0 then 0 else 3))
  {
    var data := WritePacket(addr, length, digits);
    PacketsSendable(addr, length, digits);
    OneCommand(st, noise, data, more);
    WriteLaidOut(addr, length, digits);
    WriteHandled(data + [0], addr, length, digits, st.mem);
    var h := Handle(data + [0], st.mem);
    st1 := State(h.mem, more, st.output + [PLUS] + Frame(h.data));
  }

  lemma WriteLaidOut(addr: seq<Byte>, length: seq<Byte>, digits: seq<Byte>)
    ensures var buf := WritePacket(addr, length, digits) + [0];
            Layout(buf, addr, length) && buf[0] == 'M' as int && [COLON] + digits <= buf[2 + |addr| + |length|..]
  {
    var buf := WritePacket(addr, length, digits) + [0];
    var tail := [COLON] + digits + [0];
    assert buf == ['M' as int] + addr + [COMMA] + length + tail;
    LaidOut(buf, 'M' as int, addr, length, tail);
  }

  lemma ReadTurn(st: State, addr: seq<Byte>, length: seq<Byte>, more: seq<Byte>) returns (st1: State)
    requires Number(addr) && Number(length) && 2 * IntOf(length) + 1 <= BUFMAX && |ReadPacket(addr, length)| < BUFMAX
    requires st.input == [] + Frame(ReadPacket(addr, length)) + ([PLUS] + more)
    ensures Iterate(st) == Next(st1) && st1.input == more && st1.mem == st.mem
    ensures st1.output == st.output + [PLUS] + Frame(ReadReply(st.mem, IntOf(addr), IntOf(length)))
  {
    var data := ReadPacket(addr, length);
    PacketsSendable(addr, length, []);
    OneCommand(st, [], data, more);
    LaidOut(data + [0], 'm' as int, addr, length, [0]);
    ReadHandled(data + [0], addr, length, st.mem);
    var h := Handle(data + [0], st.mem);
    st1 := State(h.mem, more, st.output + [PLUS] + Frame(h.data));
  }

  /**
   Bytes written with `M` are read back with `m`, in lower case, however the numbers and
   the data were spelled; memory elsewhere is unchanged.
   */
  lemma WriteThenRead(st: State, noise: seq<Byte>, addr: seq<Byte>, length: seq<Byte>, digits: seq<Byte>,
                      addr1: seq<Byte>, length1: seq<Byte>, rest: seq<Byte>, more: seq<Byte>)
    returns (st1: State, st2: State)
    requires IsNoise(noise) && Number(addr) && Number(length) && AllHex(digits) && |digits| == 2 * Count(length)
    requires Number(addr1) && Number(length1) && IntOf(addr1) == IntOf(addr) && IntOf(length1) == IntOf(length)
    requires |WritePacket(addr, length, digits)| < BUFMAX && |ReadPacket(addr1, length1)| < BUFMAX
    requires Mapped(st.mem, IntOf(addr), Count(length))
    requires st.input == noise + Frame(WritePacket(addr, length, digits)) + ([PLUS] + rest)
    requires rest == [] + Frame(ReadPacket(addr1, length1)) + ([PLUS] + more)
    ensures Iterate(st) == Next(st1) && Iterate(st1) == Next(st2)
    ensures Stored(st.mem, st1.mem, IntOf(addr), FromHex(digits)) && st2.mem == st1.mem
    ensures st2.output == st1.output + [PLUS] + Frame(ToHex(FromHex(digits))) && st2.input == more
  {
    st1 := WriteTurn(st, noise, addr, length, digits, rest);
    assert |FromHex(digits)| == Count(length1);
    StoredReply(st.mem, st1.mem, IntOf(addr1), FromHex(digits));
    assert ReadReply(st1.mem, IntOf(addr1), IntOf(length1)) == ToHex(FromHex(digits));
    st2 := ReadTurn(st1, addr1, length1, more);
  }

  // ---------------------------------------------------------------- the stub itself

  /** `data` is the NUL-terminated string in `buf`. */
  ghost predicate IsText(buf: seq<Byte>, data: seq<Byte>) {
    data + [0] <= buf && forall i :: 0 <= i < |data| ==> data[i] != 0
  }

  /** `data` are the first bytes of `s`, with no `#` among them. */
  ghost predicate Scanned(s: seq<Byte>, data: seq<Byte>) {
    |data| <= |s| && forall i :: 0 <= i < |data| ==> data[i] == Mask7(s[i]) && data[i] != HASH
  }

  lemma ScannedNext(s: seq<Byte>, data: seq<Byte>, ch: Byte)
    requires Scanned(s, data) && |data| < |s| && Mask7(s[|data|]) == ch != HASH
    ensures Scanned(s, data + [ch])
  {
  }

  /** The stub's two buffers, the memory it serves, and the line. */
  class Stub {
    const packetIn: array<Byte>
    const packetOut: array<Byte>
    var mem: Memory
    var input: seq<Byte>
    var output: seq<Byte>

    ghost predicate Valid()
      reads this
    {
      packetIn.Length == BUFMAX && packetOut.Length == BUFMAX && packetIn != packetOut
    }

    constructor (mem: Memory, input: seq<Byte>)
      ensures Valid() && this.mem == mem && this.input == input && output == []
    {
      packetIn, packetOut := new Byte[BUFMAX], new Byte[BUFMAX];
      this.mem, this.input, output := mem, input, [];
    }

    /** Waits for `$`; false if the line ends first. */
    method SkipToStart() returns (ok: bool)
      modifies this`input
      ensures var i := Find(DOLLAR, old(input), |old(input)|);
              ok == (i < |old(input)|) && (ok ==> input == old(input)[i + 1..])
    {
      ghost var start, n := input, 0;
      while input != []
        invariant n <= |start| && input == start[n..] && forall i :: 0 <= i < n ==> Mask7(start[i]) != DOLLAR
        decreases |input|
      {
        var ch := Mask7(input[0]);
        input := input[1..];
        if ch == DOLLAR {
          FindUnique(DOLLAR, start, |start|, n);
          return true;
        }
        n := n + 1;
      }
      FindUnique(DOLLAR, start, |start|, |start|);
      return false;
    }

    /** One more byte: stored, and added to the checksum. */
    method Keep(count: nat, sum: Byte, ch: Byte, ghost s: seq<Byte>, ghost data0: seq<Byte>, ghost before: seq<Byte>)
      returns (checksum: Byte, ghost data: seq<Byte>)
      requires Valid() && count == |data0| < BUFMAX == |before| && packetIn[..] == data0 + before[count..]
      requires Scanned(s, data0) && count < |s| && Mask7(s[count]) == ch != HASH && sum == Checksum(data0)
      modifies packetIn
      ensures |data| == count + 1 && Scanned(s, data) && checksum == Checksum(data)
      ensures packetIn[..] == data + before[count + 1..]
    {
      ScannedNext(s, data0, ch);
      ChecksumNext(data0, ch);
      checksum, data := Add(sum, ch), data0 + [ch];
      packetIn[count] := ch;
    }

    /** The inner loop of `getpacket`: stores bytes until `#`, the end of the buffer or the end of the line. */
    method Scan() returns (found: bool, count: nat, checksum: Byte, ghost data: seq<Byte>)
      requires Valid()
      modifies this`input, packetIn
      ensures count == |data| <= BUFMAX && Scanned(old(input), data) && checksum == Checksum(data)
      ensures if found then count < BUFMAX && count < |old(input)| && Mask7(old(input)[count]) == HASH
              && input == old(input)[count + 1..]
              else (count == BUFMAX || count == |old(input)|) && input == old(input)[count..]
      ensures packetIn[..] == data + old(packetIn[..])[count..]
    {
      ghost var s, before := input, packetIn[..];
      found, checksum, count, data := false, 0, 0, [];
      while count < BUFMAX && input != []
        invariant Scanned(s, data) && count == |data| <= BUFMAX && input == s[count..] && checksum == Checksum(data)
        invariant packetIn[..] == data + before[count..]
      {
        var ch := Mask7(input[0]);
        input := input[1..];
        if ch == HASH { return true, count, checksum, data; }
        checksum, data := Keep(count, checksum, ch, s, data, before);
        count := count + 1;
      }
    }

    /** What was read, in terms of the place of `#`; not found in a buffer not full means the line ended. */
    method FillBuffer() returns (found: bool, count: nat, checksum: Byte, ghost data: seq<Byte>)
      requires Valid()
      modifies this`input, packetIn
      ensures var s := old(input);
              var n := if |s| < BUFMAX then |s| else BUFMAX;
              && count == Find(HASH, s, n) && found == (count < n)
              && input == (if found then s[count + 1..] else s[count..])
              && data == Masked(s[..count])
      ensures packetIn[..] == data + old(packetIn[..])[count..] && checksum == Checksum(data)
    {
      ghost var s := input;
      found, count, checksum, data := Scan();
      FindUnique(HASH, s, if |s| < BUFMAX then |s| else BUFMAX, count);
    }

    /** Ends the string, reads the checksum and acknowledges. */
    method Acknowledge(count: nat)
      requires Valid() && count < BUFMAX && 2 <= |input|
      modifies this`input, this`output, packetIn
      ensures packetIn[..] == old(packetIn[..])[count := 0] && input == old(input)[2..]
              && output == old(output) + [PLUS]
    {
      packetIn[count] := 0;
      var xmitcsum := Pack(Mask7(input[0]), Mask7(input[1]));
      input := input[2..];
      output := output + [PLUS];
    }

    /** The rest of a pass once `$` has been seen. */
    method AttemptBody() returns (t: Tried)
      requires Valid()
      modifies this`input, this`output, packetIn
      ensures t.Ended? ==> Body(old(input)) == Blocked
      ensures t.Again? ==> |input| <= |old(input)| && Body(old(input)) == Receive(input) && output == old(output)
      ensures t.Full? ==> Body(old(input)) == Overrun(packetIn[..], input) && output == old(output)
      ensures t.Done? ==> var r := Body(old(input));
                          && r.Got? && |r.data| == t.count && input == r.rest && output == old(output) + [PLUS]
                          && r.data + [0] <= packetIn[..]
    {
      ghost var s, before := input, packetIn[..];
      var found, count, checksum, data := FillBuffer();
      if count >= BUFMAX {
        PassFull(s);
        assert packetIn[..] == data;
        return if checksum == 255 then Full else Again;
      }
      PassShort(s, count);
      if !found || |input| < 2 { return Ended; }
      Acknowledge(count);
      Terminated(before, data);
      return Done(count);
    }

    /** One pass of the loop in `getpacket`. */
    method Attempt() returns (t: Tried)
      requires Valid()
      modifies this`input, this`output, packetIn
      ensures t.Ended? ==> Receive(old(input)) == Blocked
      ensures t.Again? ==> |input| < |old(input)| && output == old(output) && Receive(input) == Receive(old(input))
      ensures t.Full? ==> Receive(old(input)) == Overrun(packetIn[..], input) && output == old(output)
      ensures t.Done? ==> var r := Receive(old(input));
                          && r.Got? && |r.data| == t.count && input == r.rest && output == old(output) + [PLUS]
                          && r.data + [0] <= packetIn[..]
    {
      var ok := SkipToStart();
      if !ok { return Ended; }
      t := AttemptBody();
    }

    /**
     `getpacket`; false if the line ends before a packet is through.  `size` counts the packet
     and its NUL, and is 0 if there is none.
     */
    method GetPacket() returns (ok: bool, size: nat)
      requires Valid()
      modifies this`input, this`output, packetIn
      ensures var r := Receive(old(input));
              match r
              case Blocked => !ok
              case Got(data, _, _, rest) =>
                && ok && size == |data| + 1 && data + [0] <= packetIn[..]
                && input == rest && output == old(output) + [PLUS]
              case Overrun(data, rest) =>
                ok && size == 0 && packetIn[..] == data && input == rest && output == old(output)
    {
      ghost var r := Receive(input);
      while true
        invariant Receive(input) == r && output == old(output)
        decreases |input|
      {
        var t := Attempt();
        match t
        case Ended => return false, 0;
        case Full => return true, 0;
        case Done(count) => return true, count + 1;
        case Again =>
      }
    }
  
    /** One transmission of `putpacket`. */
    method SendFrame(ghost data: seq<Byte>)
      requires Valid() && IsText(packetOut[..], data)
      modifies this`output
      ensures output == old(output) + Frame(data)
    {
      output := output + [DOLLAR];
      var checksum: Byte, count := 0, 0;
      assert data[..0] == [];
      while packetOut[count] != 0
        invariant count <= |data| && output == old(output) + [DOLLAR] + data[..count]
                  && checksum == Checksum(data[..count])
        decreases |data| - count
      {
        var ch := packetOut[count];
        TextAt(packetOut[..], data, count);
        assert data[..count + 1] == data[..count] + [ch];
        ChecksumNext(data[..count], ch);
        output := output + [ch];
        checksum := Add(checksum, ch);
        count := count + 1;
      }
      TextAt(packetOut[..], data, count);
      assert data[..count] == data;
      output := output + [HASH] + [DigitToHex(checksum / 16)] + [DigitToHex(checksum % 16)];
    }

    /** `putpacket`; false if the line ends before the `+`. */
    method PutPacket(ghost data: seq<Byte>) returns (ok: bool)
      requires Valid() && IsText(packetOut[..], data)
      modifies this`input, this`output
      ensures match Send(data, old(input))
              case Waiting => !ok
              case Sent(out, rest) => ok && input == rest && output == old(output) + out
    {
      ghost var s, k := input, 0;
      while true
        invariant k <= |s| && input == s[k..] && output == old(output) + Repeat(Frame(data), k)
        invariant forall i :: 0 <= i < k ==> Mask7(s[i]) != PLUS
        decreases |input|
      {
        SendFrame(data);
        if input == [] {
          FindUnique(PLUS, s, |s|, k);
          return false;
        }
        var ch := Mask7(input[0]);
        input := input[1..];
        if ch == PLUS {
          FindUnique(PLUS, s, |s|, k);
          return true;
        }
        k := k + 1;
      }
    }

    /** `make_return_packet`. */
    method MakeReturnPacket(val: nat)
      requires Valid() && val < 256
      modifies packetOut
      ensures IsText(packetOut[..], StatusPacket(val))
    {
      if val == 0 {
        packetOut[0], packetOut[1], packetOut[2] := 'O' as int, 'K' as int, 0;
      } else {
        packetOut[0], packetOut[1] := 'E' as int, DigitToHex(val / 16);
        packetOut[2], packetOut[3] := DigitToHex(val % 16), 0;
      }
    }

    /** `hex2int` at place `p` of the packet: the number, and how many digits it has. */
    method HexToInt(p: nat, ghost buf: seq<Byte>) returns (n: nat, value: int)
      requires Valid() && p < |buf| && buf <= packetIn[..] && buf[|buf| - 1] == 0
      ensures n == Run(buf, p) && p + n < |buf| && value == IntAt(buf, p, n)
    {
      var u: nat, q := 0, p;
      assert buf[p..p] == [];
      while packetIn[q] != 0
        invariant p <= q < |buf| && AllHex(buf[p..q]) && u == HexValue(buf[p..q]) % 0x1_0000_0000
        decreases |buf| - q
      {
        var d := HexToDigit(packetIn[q]);
        if d < 0 { break; }
        assert buf[p..q + 1] == buf[p..q] + [packetIn[q]];
        ValueNext(buf[p..q], packetIn[q]);
        u := BitOr(u * 16 % 0x1_0000_0000, d);
        q := q + 1;
      }
      n := q - p;
      assert forall i :: p <= i < q ==> buf[i] == buf[p..q][i - p];
      RunUnique(buf, p, n);
      SignedSame(HexValue(buf[p..q]));
      value := if u < 0x8000_0000 then u else u - 0x1_0000_0000;
    }
  
    method PutHexByte(i: nat, ch: Byte)
      requires Valid() && 2 * i + 2 <= BUFMAX
      modifies packetOut
      ensures packetOut[..2 * i + 2] == old(packetOut[..2 * i]) + HexByte(ch)
    {
      packetOut[2 * i], packetOut[2 * i + 1] := DigitToHex(ch / 16), DigitToHex(ch % 16);
    }

    /** `mem2hex`: the bytes in hexadecimal in the reply buffer; false on a fault. */
    method MemToHex(addr: int, count: int) returns (ok: bool)
      requires Valid() && 2 * count + 1 <= BUFMAX
      modifies packetOut
      ensures ok == Mapped(mem, addr, count)
      ensures ok ==> IsText(packetOut[..], ToHex(BytesAt(mem, addr, if count < 0 then 0 else count)))
    {
      var i := 0;
      while i < count
        invariant 0 <= i && (i <= count || i == 0) && Mapped(mem, addr, i)
                  && packetOut[..2 * i] == ToHex(BytesAt(mem, addr, i))
      {
        if addr + i !in mem { return false; }
        PutHexByte(i, mem[addr + i]);
        HexNext(mem, addr, i);
        i := i + 1;
      }
      packetOut[2 * i] := 0;
      assert packetOut[..2 * i + 1] == ToHex(BytesAt(mem, addr, i)) + [0];
      return true;
    }

    /** `hex2mem`: stores the digits at place `at` of the packet, up to a fault. */
    method HexToMem(at: nat, addr: int, count: nat, ghost buf: seq<Byte>) returns (ok: bool)
      requires Valid() && buf <= packetIn[..] && at + 2 * count <= |buf|
      modifies this`mem
      ensures (mem, ok) == StoreHex(old(mem), addr, buf, at, count)
    {
      var i := 0;
      while i < count
        invariant i <= count && (mem, true) == StoreHex(old(mem), addr, buf, at, i)
      {
        var ch := Pack(packetIn[at + 2 * i], packetIn[at + 2 * i + 1]);
        ghost var r := StoreHex(old(mem), addr, buf, at, i + 1);
        if addr + i !in mem {
          StopsAt(old(mem), addr, buf, at, i, count);
          return false;
        }
        mem := mem[addr + i := ch];
        i := i + 1;
      }
      return true;
    }
  
    /** The address and length at the start of a command, as both `m` and `M` read them. */
    method ReadFields(colon: bool, ghost buf: seq<Byte>) returns (r: Parsed)
      requires Valid() && 1 < |buf| && buf <= packetIn[..] && buf[|buf| - 1] == 0
      ensures r == Parse(buf, colon)
    {
      var n, addr := HexToInt(1, buf);
      assert packetIn[1 + n] == buf[1 + n];
      if n == 0 || packetIn[1 + n] != COMMA { return Malformed; }
      r := ReadLength(colon, n, addr, buf);
    }

    method ReadLength(colon: bool, n: nat, addr: int, ghost buf: seq<Byte>) returns (r: Parsed)
      requires Valid() && 2 + n < |buf| && buf <= packetIn[..] && buf[|buf| - 1] == 0
      requires 0 < n == Run(buf, 1) && buf[1 + n] == COMMA && addr == IntAt(buf, 1, n)
      ensures r == Parse(buf, colon)
    {
      var k, length := HexToInt(2 + n, buf);
      var q := 2 + n + k;
      assert packetIn[q] == buf[q];
      if k == 0 || (colon && packetIn[q] != COLON) {
        ParseStops(buf, n, k, colon);
        return Malformed;
      }
      ParseRuns(buf, n, k, colon, addr, length);
      return Fields(addr, length, if colon then q + 1 else q);
    }

    /** The case `m`; false where `HandleRead` does not specify what happens. */
    method ReadCommand(ghost buf: seq<Byte>) returns (ok: bool, ghost reply: seq<Byte>)
      requires Valid() && 1 < |buf| && buf <= packetIn[..] && buf[|buf| - 1] == 0
      modifies packetOut
      ensures ok == HandleRead(buf, mem).Reply?
      ensures ok ==> HandleRead(buf, mem) == Reply(mem, reply) && IsText(packetOut[..], reply)
    {
      reply := [];
      var r := ReadFields(false, buf);
      if r.Malformed? {
        MakeReturnPacket(1);
        return true, StatusPacket(1);
      }
      if 2 * r.length + 1 > BUFMAX { return false, []; }
      reply := ReadReply(mem, r.addr, r.length);
      ok := MemToHex(r.addr, r.length);
      if !ok { MakeReturnPacket(3); }
      ok := true;
    }

    /** The case `M`; false where `HandleWrite` does not specify what happens. */
    method WriteCommand(ghost buf: seq<Byte>, size: nat) returns (ok: bool, ghost reply: seq<Byte>)
      requires Valid() && 1 < |buf| == size && buf <= packetIn[..] && buf[|buf| - 1] == 0
      modifies packetOut, this`mem
      ensures ok == HandleWrite(buf, old(mem)).Reply?
      ensures ok ==> HandleWrite(buf, old(mem)) == Reply(mem, reply) && IsText(packetOut[..], reply)
    {
      var r := ReadFields(true, buf);
      if r.Malformed? {
        MakeReturnPacket(2);
        return true, StatusPacket(2);
      }
      var n := if r.length < 0 then 0 else r.length;
      if r.at + 2 * n > size { return false, []; }
      var stored := HexToMem(r.at, r.addr, n, buf);
      var val := if stored && r.addr + n != 0 then 0 else 3;
      MakeReturnPacket(val);
      return true, StatusPacket(val);
    }

    function Value(): State
      reads this
    {
      State(mem, input, output)
    }

    /** The switch of the event loop, on the packet `buf` of `size` bytes. */
    method Dispatch(ghost buf: seq<Byte>, size: nat) returns (ok: bool, ghost reply: seq<Byte>)
      requires Valid() && 1 <= |buf| == size && buf <= packetIn[..] && buf[|buf| - 1] == 0
      modifies packetOut, this`mem
      ensures ok == Handle(buf, old(mem)).Reply?
      ensures ok ==> Handle(buf, old(mem)) == Reply(mem, reply) && IsText(packetOut[..], reply)
    {
      packetOut[0] := 0;
      ok, reply := true, [];
      if packetIn[0] == 'm' as int {
        ok, reply := ReadCommand(buf);
      } else if packetIn[0] == 'M' as int {
        ok, reply := WriteCommand(buf, size);
      } else {
        ok := packetIn[0] !in TARGET_COMMANDS;
      }
    }

    /** One turn of the event loop; true if it ends with the reply acknowledged. */
    method Turn() returns (ok: bool)
      requires Valid()
      modifies this`input, this`output, this`mem, packetIn, packetOut
      ensures ok == Iterate(old(Value())).Next?
      ensures ok ==> Iterate(old(Value())) == Next(Value())
    {
      ghost var r, st := Receive(input), Value();
      var size;
      ok, size := GetPacket();
      if !ok || size == 0 { return false; }
      ghost var reply;
      ok, reply := Dispatch(r.data + [0], size);
      if ok { ok := PutPacket(reply); }
    }
  }

  lemma HexNext(mem: Memory, addr: int, i: nat)
    requires Mapped(mem, addr, i + 1)
    ensures ToHex(BytesAt(mem, addr, i + 1)) == ToHex(BytesAt(mem, addr, i)) + HexByte(mem[addr + i])
  {
    assert BytesAt(mem, addr, i + 1)[..i] == BytesAt(mem, addr, i);
  }

  /** After a fault nothing more is stored. */
  lemma {:induction false} StopsAt(mem: Memory, addr: int, buf: seq<Byte>, at: nat, i: nat, n: nat)
    requires i < n && at + 2 * n <= |buf| && addr + i !in mem
    ensures StoreHex(mem, addr, buf, at, n) == (StoreHex(mem, addr, buf, at, i).0, false)
    decreases n - i
  {
    if i + 1 < n {
      StopsAt(mem, addr, buf, at, i, n - 1);
    }
  }

  lemma TextAt(buf: seq<Byte>, data: seq<Byte>, i: nat)
    requires IsText(buf, data) && i <= |data|
    ensures buf[i] == if i < |data| then data[i] else 0
  {
    assert buf[i] == (data + [0])[i];
  }

  lemma ValueNext(s: seq<Byte>, c: Byte)
    requires AllHex(s) && IsHex(c)
    ensures AllHex(s + [c])
    ensures HexValue(s + [c]) % 0x1_0000_0000 == BitOr(HexValue(s) % 0x1_0000_0000 * 16 % 0x1_0000_0000, HexToDigit(c))
  {
    assert (s + [c])[..|s|] == s;
    ShiftIn(HexValue(s), HexToDigit(c));
  }

  lemma ShiftIn(x: nat, d: nat)
    requires d < 16
    ensures (x * 16 + d) % 0x1_0000_0000 == BitOr(x % 0x1_0000_0000 * 16 % 0x1_0000_0000, d)
  {
    ShiftMod(x, d);
    JoinNibbles(x % 0x1000_0000 * 16, d);
  }

  lemma ShiftMod(x: nat, d: nat)
    requires d < 16
    ensures x % 0x1_0000_0000 * 16 % 0x1_0000_0000 == x % 0x1000_0000 * 16
    ensures (x * 16 + d) % 0x1_0000_0000 == x % 0x1000_0000 * 16 + d
  {
    var q, r := x / 0x1000_0000, x % 0x1000_0000;
    DivModUnique(x * 16 + d, 0x1_0000_0000, q, r * 16 + d);
    DivModUnique(x, 0x1_0000_0000, q / 16, q % 16 * 0x1000_0000 + r);
    DivModUnique(x % 0x1_0000_0000 * 16, 0x1_0000_0000, q % 16, r * 16);
  }

  lemma SignedSame(x: nat)
    ensures var u := x % 0x1_0000_0000;
            SignedInt(x) == if u < 0x8000_0000 then u else u - 0x1_0000_0000
  {
  }

  datatype Tried = Ended | Again | Full | Done(count: nat)

  lemma PassShort(s: seq<Byte>, k: nat)
    requires k == Find(HASH, s, if |s| < BUFMAX then |s| else BUFMAX) < BUFMAX
    ensures Body(s) == if |s| < k + 3 then Blocked
                       else Got(Masked(s[..k]), Mask7(s[k + 1]), Mask7(s[k + 2]), s[k + 3..])
  {
  }

  lemma Terminated(buf: seq<Byte>, data: seq<Byte>)
    requires |data| < |buf|
    ensures data + [0] <= (data + buf[|data|..])[|data| := 0]
  {
  }

  /** The running checksum after one byte more. */
  lemma ChecksumNext(g: seq<Byte>, b: Byte)
    ensures Checksum(g + [b]) == Add(Checksum(g), b)
  {
    assert (g + [b])[..|g|] == g;
  }
}
