/** Characters, fixed-width integers and byte order (src/bytebauble.h).

    A `std::string` or `char` buffer is a Dafny `string`; a cast of a character to `uint8_t` is
    `U8`. Integers reach a buffer through the memory of the host that wrote them, so storing and
    loading both take the host's byte order. */
module ByteOrder {
  type uint8 = x: int | 0 <= x < 0x100
  type uint16 = x: int | 0 <= x < 0x1_0000
  type uint32 = x: int | 0 <= x < 0x1_0000_0000

  datatype Endian = BigEndian | LittleEndian

  /** The C++ cast `(uint8_t) c`. */
  function U8(c: char): uint8 {
    c as int % 256
  }

  /** The C++ cast `(char) b`. */
  function Chr(b: uint8): char {
    b as char
  }

  /** One character of a receive buffer. Reads past the received bytes yield a zero character: the
      original reads whatever its buffer held before. */
  function Peek(buffer: string, i: nat): char {
    if i < |buffer| then buffer[i] else '\0'
  }

  /** `std::string(buffer + i, buffer + (i + len))`. */
  function Slice(buffer: string, i: nat, len: nat): (r: string)
    ensures |r| == len
  {
    seq(len, k requires 0 <= k => Peek(buffer, i + k))
  }

  /** `piece` occurs in `buffer` at offset `i`. */
  predicate Holds(buffer: string, i: nat, piece: string) {
    i + |piece| <= |buffer| && buffer[i..i + |piece|] == piece
  }

  lemma HoldsSplit(buffer: string, i: nat, p: string, q: string)
    ensures Holds(buffer, i, p + q) <==> Holds(buffer, i, p) && Holds(buffer, i + |p|, q)
  {
    if Holds(buffer, i, p + q) {
      assert buffer[i..i + |p|] == (p + q)[..|p|];
      assert buffer[i + |p|..i + |p| + |q|] == (p + q)[|p|..];
    }
  }

  lemma HoldsSlice(buffer: string, i: nat, piece: string)
    requires Holds(buffer, i, piece)
    ensures Slice(buffer, i, |piece|) == piece
    ensures forall k :: 0 <= k < |piece| ==> Peek(buffer, i + k) == piece[k]
  {
    forall k | 0 <= k < |piece|
      ensures Peek(buffer, i + k) == piece[k]
    {
      assert buffer[i..i + |piece|][k] == piece[k];
    }
  }

  /** A `uint16_t` by its octets, the most significant first. */
  datatype Word16 = Word16(a: uint8, b: uint8) {
    function Number(): uint16 {
      a * 0x100 + b
    }
  }

  function Word16Of(x: uint16): Word16 {
    Word16(x / 0x100, x % 0x100)
  }

  /** A `uint32_t` that is only stored, loaded, swapped and compared, by its octets, the most
      significant first. */
  datatype Word32 = Word32(a: uint8, b: uint8, c: uint8, d: uint8) {
    function Number(): uint32 {
      a * 0x100_0000 + b * 0x1_0000 + c * 0x100 + d
    }
  }

  const ZERO := Word32(0, 0, 0, 0)

  function Word32Of(x: uint32): Word32 {
    Word32(x / 0x100_0000, x / 0x1_0000 % 0x100, x / 0x100 % 0x100, x % 0x100)
  }

  lemma LastOctet(high: nat, low: uint8)
    ensures (high * 0x100 + low) / 0x100 == high && (high * 0x100 + low) % 0x100 == low
  {
  }

  lemma DivideTwice(n: nat)
    ensures n / 0x1_0000 == n / 0x100 / 0x100
    ensures n / 0x100_0000 == n / 0x100 / 0x100 / 0x100
  {
  }

  /** Words and numbers are the same thing. */
  lemma WordsAreNumbers(w: Word16, x: uint16)
    ensures Word16Of(w.Number()) == w && Word16Of(x).Number() == x
  {
    LastOctet(w.a, w.b);
  }

  /** The same for 32 bits: in one direction, */
  lemma WordOfNumber(w: Word32)
    ensures Word32Of(w.Number()) == w
  {
    var g := w.a * 0x100 + w.b;
    var h := g * 0x100 + w.c;
    var n := w.Number();
    assert n == h * 0x100 + w.d;
    LastOctet(w.a, w.b);
    LastOctet(g, w.c);
    LastOctet(h, w.d);
    DivideTwice(n);
    assert n / 0x100 == h && n % 0x100 == w.d;
    assert n / 0x1_0000 == g && n / 0x100_0000 == w.a;
  }

  /** and in the other. */
  lemma NumberOfWord(x: uint32)
    ensures Word32Of(x).Number() == x
  {
    var h := x / 0x100;
    var g := x / 0x1_0000;
    var f := x / 0x100_0000;
    assert x == h * 0x100 + x % 0x100;
    assert h == g * 0x100 + h % 0x100;
    assert g == f * 0x100 + g % 0x100;
  }

  /** `__builtin_bswap16`. */
  function Swap16(x: Word16): Word16 {
    Word16(x.b, x.a)
  }

  /** `__builtin_bswap32`. */
  function Swap32(x: Word32): Word32 {
    Word32(x.d, x.c, x.b, x.a)
  }

  /** The object representation of a `uint16_t` in the memory of a host. */
  function Store16(host: Endian, x: Word16): (r: string)
    ensures |r| == 2
  {
    match host
    case LittleEndian => [Chr(x.b), Chr(x.a)]
    case BigEndian => [Chr(x.a), Chr(x.b)]
  }

  /** The object representation of a `uint32_t` in the memory of a host. */
  function Store32(host: Endian, x: Word32): (r: string)
    ensures |r| == 4
  {
    match host
    case LittleEndian => [Chr(x.d), Chr(x.c), Chr(x.b), Chr(x.a)]
    case BigEndian => [Chr(x.a), Chr(x.b), Chr(x.c), Chr(x.d)]
  }

  /** `*((uint16_t*) &buffer[i])` on the given host. */
  function Load16(host: Endian, buffer: string, i: nat): Word16 {
    var first, second := U8(Peek(buffer, i)), U8(Peek(buffer, i + 1));
    match host
    case LittleEndian => Word16(second, first)
    case BigEndian => Word16(first, second)
  }

  /** `*((uint32_t*) &buffer[i])` on the given host. */
  function Load32(host: Endian, buffer: string, i: nat): Word32 {
    var b0, b1, b2, b3 := U8(Peek(buffer, i)), U8(Peek(buffer, i + 1)), U8(Peek(buffer, i + 2)),
        U8(Peek(buffer, i + 3));
    match host
    case LittleEndian => Word32(b3, b2, b1, b0)
    case BigEndian => Word32(b0, b1, b2, b3)
  }

  /** The branch both `toGlobal` and `toHost` take for 16-bit values. */
  function Convert16(x: Word16, from: Endian, to: Endian): Word16 {
    if from == to then x else Swap16(x)
  }

  /** The branch both `toGlobal` and `toHost` take for 32-bit values. */
  function Convert32(x: Word32, from: Endian, to: Endian): Word32 {
    if from == to then x else Swap32(x)
  }

  /** The conversion object every NyanSD program owns one of. */
  class ByteBauble {
    var globalEndian: Endian
    var hostEndian: Endian

    /** Endianness detection: store the number 1 and look at the first byte in memory. */
    constructor (machine: Endian)
      ensures hostEndian == machine && globalEndian == LittleEndian
    {
      globalEndian := LittleEndian;
      var bytes := Store16(machine, Word16Of(1));
      hostEndian := if U8(bytes[0]) == 1 then LittleEndian else BigEndian;
    }

    method SetGlobalEndianness(end: Endian)
      modifies this`globalEndian
      ensures globalEndian == end
    {
      globalEndian := end;
    }

    function ToGlobal16(x: Word16, end: Endian): Word16
      reads this
    {
      Convert16(x, end, globalEndian)
    }

    function ToGlobal32(x: Word32, end: Endian): Word32
      reads this
    {
      Convert32(x, end, globalEndian)
    }

    function ToHost16(x: Word16, end: Endian): Word16
      reads this
    {
      Convert16(x, end, hostEndian)
    }

    function ToHost32(x: Word32, end: Endian): Word32
      reads this
    {
      Convert32(x, end, hostEndian)
    }
  }

  /** Copying a value between the memories of two machines swaps its bytes exactly when their
      byte orders differ. */
  lemma CopyMemory16(from: Endian, to: Endian, x: Word16, buffer: string, i: nat)
    requires Holds(buffer, i, Store16(from, x))
    ensures Load16(to, buffer, i) == Convert16(x, from, to)
  {
    HoldsSlice(buffer, i, Store16(from, x));
    assert Peek(buffer, i + 0) == Peek(buffer, i);
  }

  lemma FourBytes(buffer: string, i: nat, b0: uint8, b1: uint8, b2: uint8, b3: uint8)
    requires Holds(buffer, i, [Chr(b0), Chr(b1), Chr(b2), Chr(b3)])
    ensures U8(Peek(buffer, i)) == b0 && U8(Peek(buffer, i + 1)) == b1
    ensures U8(Peek(buffer, i + 2)) == b2 && U8(Peek(buffer, i + 3)) == b3
  {
    HoldsSlice(buffer, i, [Chr(b0), Chr(b1), Chr(b2), Chr(b3)]);
    assert Peek(buffer, i + 0) == Peek(buffer, i);
  }

  lemma CopyMemory32(from: Endian, to: Endian, x: Word32, buffer: string, i: nat)
    requires Holds(buffer, i, Store32(from, x))
    ensures Load32(to, buffer, i) == Convert32(x, from, to)
  {
    if from == LittleEndian {
      FourBytes(buffer, i, x.d, x.c, x.b, x.a);
    } else {
      FourBytes(buffer, i, x.a, x.b, x.c, x.d);
    }
  }

  lemma ConvertChain16(x: Word16, writer: Endian, global: Endian, reader: Endian)
    ensures Convert16(Convert16(Convert16(x, writer, global), writer, reader), global, reader) == x
  {
  }

  lemma ConvertChain32(x: Word32, writer: Endian, global: Endian, reader: Endian)
    ensures Convert32(Convert32(Convert32(x, writer, global), writer, reader), global, reader) == x
  {
  }

  /** Any 16-bit value written through one machine's memory and read through another's arrives
      unchanged, when the reader names the byte order the writer's object calls global. */
  lemma Survives16(writer: ByteBauble, reader: ByteBauble, x: Word16, buffer: string, i: nat)
    requires Holds(buffer, i, Store16(writer.hostEndian, writer.ToGlobal16(x, writer.hostEndian)))
    ensures reader.ToHost16(Load16(reader.hostEndian, buffer, i), writer.globalEndian) == x
  {
    CopyMemory16(writer.hostEndian, reader.hostEndian, writer.ToGlobal16(x, writer.hostEndian), buffer, i);
    ConvertChain16(x, writer.hostEndian, writer.globalEndian, reader.hostEndian);
  }

  /** The same for 32-bit values. */
  lemma Survives32(writer: ByteBauble, reader: ByteBauble, x: Word32, buffer: string, i: nat)
    requires Holds(buffer, i, Store32(writer.hostEndian, writer.ToGlobal32(x, writer.hostEndian)))
    ensures reader.ToHost32(Load32(reader.hostEndian, buffer, i), writer.globalEndian) == x
  {
    CopyMemory32(writer.hostEndian, reader.hostEndian, writer.ToGlobal32(x, writer.hostEndian), buffer, i);
    ConvertChain32(x, writer.hostEndian, writer.globalEndian, reader.hostEndian);
  }

  /** A 16-bit field as every program here writes it: converted to the global order, little endian,
      and then copied from the host's memory. */
  function Put16(host: Endian, x: uint16): (r: string)
    ensures |r| == 2
  {
    Store16(host, Convert16(Word16Of(x), host, LittleEndian))
  }

  function Put32(host: Endian, x: Word32): (r: string)
    ensures |r| == 4
  {
    Store32(host, Convert32(x, host, LittleEndian))
  }

  /** A 16-bit field as every program here reads it. */
  function Get16(host: Endian, buffer: string, i: nat): uint16 {
    Convert16(Load16(host, buffer, i), LittleEndian, host).Number()
  }

  function Get32(host: Endian, buffer: string, i: nat): Word32 {
    Convert32(Load32(host, buffer, i), LittleEndian, host)
  }

  /** On the wire every field is little endian, whatever the sending host is; and the field reads
      back on any host. */
  lemma Field16(sender: Endian, receiver: Endian, x: uint16, buffer: string, i: nat)
    ensures Put16(sender, x) == Store16(LittleEndian, Word16Of(x))
    ensures Holds(buffer, i, Put16(sender, x)) ==> Get16(receiver, buffer, i) == x
  {
    if Holds(buffer, i, Put16(sender, x)) {
      CopyMemory16(sender, receiver, Convert16(Word16Of(x), sender, LittleEndian), buffer, i);
      ConvertChain16(Word16Of(x), sender, LittleEndian, receiver);
    }
  }

  lemma Field32(sender: Endian, receiver: Endian, x: Word32, buffer: string, i: nat)
    ensures Put32(sender, x) == Store32(LittleEndian, x)
    ensures Holds(buffer, i, Put32(sender, x)) ==> Get32(receiver, buffer, i) == x
  {
    if Holds(buffer, i, Put32(sender, x)) {
      CopyMemory32(sender, receiver, Convert32(x, sender, LittleEndian), buffer, i);
      ConvertChain32(x, sender, LittleEndian, receiver);
    }
  }
}
