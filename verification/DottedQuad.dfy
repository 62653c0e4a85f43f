/** IPv4 addresses as text and as numbers, and the text work done on them (src/nyansd.cpp). */
module DottedQuad {
  import opened ByteOrder
  import opened Text

  // ----- text from a number -----

  function JoinDots(parts: seq<string>): string
    requires |parts| > 0
  {
    if |parts| == 1 then parts[0] else parts[0] + "." + JoinDots(parts[1..])
  }

  function QuadText(a: uint8, b: uint8, c: uint8, d: uint8): string {
    JoinDots([ToText(a), ToText(b), ToText(c), ToText(d)])
  }

  /** What `ipv4_uintToString` prints: the bytes of the number in memory order. */
  function UintToString(host: Endian, ipv4: Word32): string {
    var memory := Store32(host, ipv4);
    QuadText(U8(memory[0]), U8(memory[1]), U8(memory[2]), U8(memory[3]))
  }

  method Ipv4UintToString(host: Endian, ipv4: Word32) returns (out: string)
    ensures out == UintToString(host, ipv4)
  {
    out := "";
    var memory := Store32(host, ipv4);
    ghost var t := seq(4, (k: nat) requires k < 4 => ToText(U8(memory[k])));
    assert t == [t[0], t[1], t[2], t[3]];
    for i := 0 to 4
      invariant i < 4 ==> out + JoinDots(t[i..]) == JoinDots(t)
      invariant i == 4 ==> out == JoinDots(t)
    {
      assert t[i..][0] == t[i] && t[i..][1..] == t[i + 1..];
      out := out + ToText(U8(memory[i]));
      if i < 3 { out := out + "."; }
    }
  }

  // ----- a number from text -----

  /** The octets `ipv4_stringToUint` ends with when `done` are stored and `pos` is its position:
      `None` where `substr` or `stoul` throws. */
  function ParseOctets(text: string, pos: nat, done: seq<uint8>): (r: Option<seq<uint8>>)
    requires |done| <= 4
    ensures r.Some? ==> |r.value| == 4
    decreases 4 - |done|
  {
    if |done| == 4 then Some(done)
    else if pos > |text| then None
    else
      var end := Find(text, '.', pos + 1);
      match Stoul(Part(text, pos, end))
      case None => None
      case Some(v) => ParseOctets(text, After(end), done + [v % 0x100])
  }

  /** `pos_end + 1` as a `size_t`: it wraps to 0 behind `npos`. */
  function After(end: nat): nat {
    if end == NPOS then 0 else end + 1
  }

  /** `text.substr(pos, end - pos)`. */
  function Part(text: string, pos: nat, end: nat): string
    requires pos <= |text|
  {
    if end <= pos then "" else if end < |text| then text[pos..end] else text[pos..]
  }

  function StringToUint(host: Endian, text: string): Option<Word32> {
    match ParseOctets(text, 0, [])
    case None => None
    case Some(o) => Some(Load32(host, Memory(o), 0))
  }

  /** Four octets as they lie in memory. */
  function Memory(o: seq<uint8>): string
    requires |o| == 4
  {
    [Chr(o[0]), Chr(o[1]), Chr(o[2]), Chr(o[3])]
  }

  method Ipv4StringToUint(host: Endian, text: string) returns (r: Option<Word32>)
    ensures r == StringToUint(host, text)
  {
    var octets := new uint8[4](_ => 0);
    var pos: nat, posEnd: nat := 0, 0;
    for i := 0 to 4
      invariant ParseOctets(text, 0, []) == ParseOctets(text, pos, octets[..i])
    {
      if pos > |text| {
        return None;
      }
      posEnd := Find(text, '.', pos + 1);
      var v := Stoul(Part(text, pos, posEnd));
      if v == None {
        return None;
      }
      ghost var before := octets[..i];
      octets[i] := v.value % 0x100;
      assert octets[..i + 1] == before + [v.value % 0x100];
      pos := After(posEnd);
    }
    r := Some(Load32(host, Memory(octets[..]), 0));
  }

  // ----- which octets come out -----

  /** A part `stoul` accepts whole: decimal digits that fit an `unsigned long`. */
  predicate IsPart(part: string) {
    part != [] && AllDigits(part) && RunValue(part, 10, 0) <= ULONG_MAX
  }

  predicate AreParts(parts: seq<string>) {
    |parts| > 0 && forall j :: 0 <= j < |parts| ==> IsPart(parts[j])
  }

  /** Where part `j` starts in the joined text. */
  function Start(parts: seq<string>, j: nat): nat
    requires j <= |parts|
  {
    if j == 0 then 0 else Start(parts, j - 1) + |parts[j - 1]| + 1
  }

  lemma {:induction false} SuffixAt(parts: seq<string>, j: nat)
    requires j < |parts|
    ensures Start(parts, j) <= |JoinDots(parts)|
    ensures JoinDots(parts)[Start(parts, j)..] == JoinDots(parts[j..])
  {
    if j == 0 {
      assert parts[0..] == parts;
    } else {
      SuffixAt(parts, j - 1);
      var text, s := JoinDots(parts), Start(parts, j - 1);
      assert parts[j - 1..][1..] == parts[j..];
      assert text[s..] == parts[j - 1] + "." + JoinDots(parts[j..]);
      assert text[s..][|parts[j - 1]| + 1..] == text[s + |parts[j - 1]| + 1..];
    }
  }

  /** One part read: the search stops at the dot behind it, or runs off the end of the text. */
  lemma ReadPart(parts: seq<string>, j: nat)
    requires AreParts(parts) && j < |parts|
    requires |JoinDots(parts)| < NPOS
    ensures var text, pos := JoinDots(parts), Start(parts, j);
            var end := Find(text, '.', pos + 1);
            && pos <= |text| && Part(text, pos, end) == parts[j]
            && After(end) == if j + 1 < |parts| then Start(parts, j + 1) else 0
  {
    SuffixAt(parts, j);
    var text, pos, part := JoinDots(parts), Start(parts, j), parts[j];
    var rest := if j + 1 < |parts| then "." + JoinDots(parts[j..][1..]) else "";
    assert text[pos..] == part + rest;
    FindInSuffix(text, pos, part, rest);
  }

  lemma FindInSuffix(text: string, pos: nat, part: string, rest: string)
    requires IsPart(part) && (rest == "" || rest[0] == '.')
    requires pos <= |text| < NPOS && text[pos..] == part + rest
    ensures var end := Find(text, '.', pos + 1);
            Part(text, pos, end) == part && end == if rest == "" then NPOS else pos + |part|
  {
    forall i | pos <= i < pos + |part|
      ensures text[i] != '.'
    {
      assert text[i] == text[pos..][i - pos] == part[i - pos];
    }
    if rest != "" {
      assert text[pos + |part|] == text[pos..][|part|] == '.';
      assert text[pos..pos + |part|] == text[pos..][..|part|];
    }
    FindAt(text, '.', pos + 1, pos + |part|);
  }

  function Value(part: string): uint8 {
    RunValue(part, 10, 0) % 0x100
  }

  /** The values of `k` parts from part `j` on, starting over behind the last part. */
  function Cyclic(parts: seq<string>, j: nat, k: nat): (r: seq<uint8>)
    requires j < |parts|
    ensures |r| == k
    decreases k
  {
    if k == 0 then [] else [Value(parts[j])] + Cyclic(parts, if j + 1 < |parts| then j + 1 else 0, k - 1)
  }

  lemma ParsesPart(text: string, pos: nat, done: seq<uint8>, part: string, next: nat)
    requires |done| < 4 && pos <= |text| && IsPart(part)
    requires Part(text, pos, Find(text, '.', pos + 1)) == part && After(Find(text, '.', pos + 1)) == next
    ensures ParseOctets(text, pos, done) == ParseOctets(text, next, done + [Value(part)])
  {
    StoulOfDigits(part);
  }

  lemma AppendCyclic(parts: seq<string>, j: nat, done: seq<uint8>)
    requires j < |parts| && |done| < 4
    ensures done + Cyclic(parts, j, 4 - |done|)
         == done + [Value(parts[j])]
             + Cyclic(parts, if j + 1 < |parts| then j + 1 else 0, 4 - |done + [Value(parts[j])]|)
  {
  }

  lemma {:induction false} ParsesCyclically(parts: seq<string>, j: nat, done: seq<uint8>)
    requires AreParts(parts) && j < |parts| && |done| <= 4
    requires |JoinDots(parts)| < NPOS
    ensures ParseOctets(JoinDots(parts), Start(parts, j), done) == Some(done + Cyclic(parts, j, 4 - |done|))
    decreases 4 - |done|
  {
    if |done| < 4 {
      ReadPart(parts, j);
      var v := Value(parts[j]);
      var next := if j + 1 < |parts| then j + 1 else 0;
      ParsesPart(JoinDots(parts), Start(parts, j), done, parts[j], Start(parts, next));
      ParsesCyclically(parts, next, done + [v]);
      AppendCyclic(parts, j, done);
    } else {
      assert done + [] == done;
    }
  }

  /** The parsed octets are the values of the parts, starting over behind the last one: four parts
      give the usual reading, fewer repeat cyclically, and parts behind the fourth are ignored. */
  lemma PartsRepeat(host: Endian, parts: seq<string>)
    requires AreParts(parts)
    requires |JoinDots(parts)| < NPOS
    ensures var r := StringToUint(host, JoinDots(parts));
            r.Some? && Store32(host, r.value) == Memory(Cyclic(parts, 0, 4))
  {
    ParsesCyclically(parts, 0, []);
    var o := Cyclic(parts, 0, 4);
    assert [] + o == o;
    StoreLoaded(host, o[0], o[1], o[2], o[3]);
  }

  lemma StoreLoaded(host: Endian, b0: uint8, b1: uint8, b2: uint8, b3: uint8)
    ensures Store32(host, Load32(host, [Chr(b0), Chr(b1), Chr(b2), Chr(b3)], 0)) == [Chr(b0), Chr(b1), Chr(b2), Chr(b3)]
  {
    FourBytes([Chr(b0), Chr(b1), Chr(b2), Chr(b3)], 0, b0, b1, b2, b3);
  }

  lemma OctetPart(a: uint8)
    ensures IsPart(ToText(a)) && Value(ToText(a)) == a
    ensures |ToText(a)| <= 3
  {
    ToTextReadsBack(a);
    assert |ToText(a / 10 / 10)| == 1;
    assert |ToText(a / 10)| <= 2;
  }

  lemma QuadParts(parts: seq<string>)
    requires |parts| == 4 && AreParts(parts)
    requires forall i :: 0 <= i < 4 ==> |parts[i]| <= 3
    ensures |JoinDots(parts)| <= 15
    ensures Cyclic(parts, 0, 4) == [Value(parts[0]), Value(parts[1]), Value(parts[2]), Value(parts[3])]
  {
    assert parts[1..][1..][1..] == [parts[3]];
    assert |JoinDots(parts[1..][1..])| <= 7;
    assert |JoinDots(parts[1..])| <= 11;
    assert Cyclic(parts, 2, 2) == [Value(parts[2]), Value(parts[3])];
  }

  lemma QuadParses(host: Endian, a: uint8, b: uint8, c: uint8, d: uint8)
    ensures var r := StringToUint(host, QuadText(a, b, c, d));
            r.Some? && Store32(host, r.value) == [Chr(a), Chr(b), Chr(c), Chr(d)]
  {
    OctetPart(a);
    OctetPart(b);
    OctetPart(c);
    OctetPart(d);
    var parts := [ToText(a), ToText(b), ToText(c), ToText(d)];
    QuadParts(parts);
    PartsRepeat(host, parts);
  }

  /** Any canonical quad, as text: parsing stores its octets in memory order, on either kind of
      host, and printing the number gives the text back. */
  lemma QuadRoundTrip(host: Endian, a: uint8, b: uint8, c: uint8, d: uint8)
    ensures var r := StringToUint(host, QuadText(a, b, c, d));
            && r.Some?
            && Store32(host, r.value) == [Chr(a), Chr(b), Chr(c), Chr(d)]
            && UintToString(host, r.value) == QuadText(a, b, c, d)
  {
    QuadParses(host, a, b, c, d);
    PrintsMemory(host, StringToUint(host, QuadText(a, b, c, d)).value, a, b, c, d);
  }

  /** Every number prints as a text that parses back to it. */
  lemma NumberRoundTrip(host: Endian, ipv4: Word32)
    ensures StringToUint(host, UintToString(host, ipv4)) == Some(ipv4)
  {
    var memory := Store32(host, ipv4);
    var a, b, c, d := U8(memory[0]), U8(memory[1]), U8(memory[2]), U8(memory[3]);
    assert memory == [Chr(a), Chr(b), Chr(c), Chr(d)];
    QuadRoundTrip(host, a, b, c, d);
    var x := StringToUint(host, QuadText(a, b, c, d)).value;
    assert Store32(host, x) == Store32(host, ipv4);
    StoreInjective(host, x, ipv4);
  }

  lemma StoreInjective(host: Endian, x: Word32, y: Word32)
    requires Store32(host, x) == Store32(host, y)
    ensures x == y
  {
    CopyMemory32(host, host, x, Store32(host, x), 0);
    CopyMemory32(host, host, y, Store32(host, y), 0);
  }

  /** A quad registered as text on the server and sent over the wire prints the same at the client
      when both hosts share a byte order, and with its octets reversed when they do not. */
  lemma QuadAcrossHosts(server: Endian, client: Endian, a: uint8, b: uint8, c: uint8, d: uint8, buffer: string, i: nat)
    requires Holds(buffer, i, Put32(server, StringToUint(server, QuadText(a, b, c, d)).GetOr(ZERO)))
    ensures UintToString(client, Get32(client, buffer, i))
         == if server == client then QuadText(a, b, c, d) else QuadText(d, c, b, a)
  {
    QuadRoundTrip(server, a, b, c, d);
    var x := StringToUint(server, QuadText(a, b, c, d)).value;
    Field32(server, client, x, buffer, i);
    StoreReversed(x);
    if server != client {
      PrintsMemory(client, x, d, c, b, a);
    }
  }

  lemma PrintsMemory(host: Endian, x: Word32, a: uint8, b: uint8, c: uint8, d: uint8)
    requires Store32(host, x) == [Chr(a), Chr(b), Chr(c), Chr(d)]
    ensures UintToString(host, x) == QuadText(a, b, c, d)
  {
    hide QuadText, Store32;
  }

  lemma StoreReversed(x: Word32)
    ensures var m, r := Store32(LittleEndian, x), Store32(BigEndian, x);
            r == [m[3], m[2], m[1], m[0]] && m == [r[3], r[2], r[1], r[0]]
  {
  }
}
