/** The text work done on the addresses of the local network: the address a query is broadcast to,
    and the local address a responder offers a querier (src/nyansd.cpp). */
module LocalAddress {
  import opened ByteOrder
  import opened Text
  import opened DottedQuad

  /** An address of a network interface, as the network library prints it. */
  datatype Address = V4(a: uint8, b: uint8, c: uint8, d: uint8) | V6(text: string) {
    function ToString(): string {
      match this
      case V4(a, b, c, d) => QuadText(a, b, c, d)
      case V6(text) => text
    }
  }

  // ----- broadcasting -----

  /** `ipStr.replace(ipStr.find_last_of('.') + 1, 3, "255")`. */
  function BroadcastText(ip: string): string {
    var keep := UpToLast(ip, '.');
    keep + "255" + if |keep| + 3 <= |ip| then ip[|keep| + 3..] else ""
  }

  function Base(a: uint8, b: uint8, c: uint8): string {
    ToText(a) + "." + ToText(b) + "." + ToText(c) + "."
  }

  lemma QuadIsBaseAndLast(a: uint8, b: uint8, c: uint8, d: uint8)
    ensures QuadText(a, b, c, d) == Base(a, b, c) + ToText(d)
  {
    var parts := [ToText(a), ToText(b), ToText(c), ToText(d)];
    assert parts[1..] == [ToText(b), ToText(c), ToText(d)];
    assert parts[1..][1..] == [ToText(c), ToText(d)];
    assert parts[1..][1..][1..] == [ToText(d)];
    assert JoinDots(parts[1..][1..]) == ToText(c) + "." + ToText(d);
    assert JoinDots(parts[1..]) == ToText(b) + "." + (ToText(c) + "." + ToText(d));
    assert JoinDots(parts) == ToText(a) + "." + (ToText(b) + "." + (ToText(c) + "." + ToText(d)));
  }

  lemma UpToLastDot(a: uint8, b: uint8, c: uint8, tail: string)
    requires forall i :: 0 <= i < |tail| ==> tail[i] != '.'
    ensures UpToLast(Base(a, b, c) + tail, '.') == Base(a, b, c)
  {
    var s := ToText(a) + "." + ToText(b) + "." + ToText(c);
    assert Base(a, b, c) == s + ['.'];
    UpToLastAt(s, '.', tail);
  }

  /** The broadcast text denotes the interface's address with its last octet set to 255. */
  lemma BroadcastIsLastOctet255(a: uint8, b: uint8, c: uint8, d: uint8)
    ensures BroadcastText(QuadText(a, b, c, d)) == QuadText(a, b, c, 255)
  {
    QuadIsBaseAndLast(a, b, c, d);
    QuadIsBaseAndLast(a, b, c, 255);
    ToTextReadsBack(d);
    OctetPart(d);
    UpToLastDot(a, b, c, ToText(d));
    assert ToText(25) == "25";
    assert ToText(255) == "255";
    var ip, keep := QuadText(a, b, c, d), Base(a, b, c);
    if |keep| + 3 <= |ip| {
      assert ip[|keep| + 3..] == "";
    }
  }

  // ----- from the sender's address to a local one -----

  function SenderText(a: uint8, b: uint8, c: uint8, d: uint8, port: uint16): string {
    QuadText(a, b, c, d) + ":" + ToText(port)
  }

  /** `addr.compare(0, addr.length(), ip, 0, addr.length()) == 0`. */
  predicate SameLan(base: string, ip: string) {
    base <= ip
  }

  predicate AnyOnLan(base: string, addresses: seq<Address>) {
    exists i :: 0 <= i < |addresses| && SameLan(base, addresses[i].ToString())
  }

  /** The number of the first IPv4 address in the list. */
  function FirstIPv4(host: Endian, addresses: seq<Address>): Option<Word32> {
    if addresses == [] then None
    else if addresses[0].V4? then StringToUint(host, addresses[0].ToString())
    else FirstIPv4(host, addresses[1..])
  }

  /** What the resolver answers for an IPv4 sender whose address without its last part is `base`. */
  function LocalIPv4(host: Endian, base: string, interfaces: seq<seq<Address>>): Option<Word32> {
    if interfaces == [] then None
    else if AnyOnLan(base, interfaces[0]) then FirstIPv4(host, interfaces[0])
    else LocalIPv4(host, base, interfaces[1..])
  }

  method RemoteToLocalIP(host: Endian, sender: string, interfaces: seq<seq<Address>>) returns (ipv4: Option<Word32>)
    ensures ipv4 == LocalIPv4(host, UpToLast(sender, '.'), interfaces)
  {
    var addr := UpToLast(sender, '.');
    for it := 0 to |interfaces|
      invariant LocalIPv4(host, addr, interfaces) == LocalIPv4(host, addr, interfaces[it..])
    {
      var list := interfaces[it];
      for i := 0 to |list|
        invariant forall k :: 0 <= k < i ==> !SameLan(addr, list[k].ToString())
      {
        if SameLan(addr, list[i].ToString()) {
          assert AnyOnLan(addr, interfaces[it..][0]);
          for j := 0 to |list|
            invariant FirstIPv4(host, list) == FirstIPv4(host, list[j..])
          {
            assert list[j..][1..] == list[j + 1..];
            if list[j].V4? {
              FirstIPv4Parses(host, list[j]);
              ipv4 := Ipv4StringToUint(host, list[j].ToString());
              return;
            }
          }
          return None;
        }
      }
      assert interfaces[it..][1..] == interfaces[it + 1..];
    }
    return None;
  }

  lemma FirstIPv4Parses(host: Endian, address: Address)
    requires address.V4?
    ensures |address.ToString()| <= 15
    ensures StringToUint(host, address.ToString()).Some?
  {
    QuadRoundTrip(host, address.a, address.b, address.c, address.d);
    QuadIsBaseAndLast(address.a, address.b, address.c, address.d);
    OctetPart(address.a);
    OctetPart(address.b);
    OctetPart(address.c);
    OctetPart(address.d);
  }

  /** An IPv6 address in text: a colon comes before any dot. */
  predicate ColonFirst(text: string) {
    exists k :: 0 <= k < |text| && text[k] == ':' && forall i :: 0 <= i < k ==> text[i] != '.'
  }

  /** Two texts that start with digits and a dot and agree start with the same digits. */
  lemma SameFirstPart(p: string, q: string, u: string, v: string)
    requires AllDigits(p) && AllDigits(q)
    requires p + "." + u <= q + "." + v
    ensures p == q && u <= v
  {
    var s, t := p + "." + u, q + "." + v;
    assert forall i :: 0 <= i < |s| ==> s[i] == t[i];
    assert s[|p|] == '.' && t[|q|] == '.';
    assert |p| == |q|;
    assert p == s[..|p|] && q == t[..|q|];
    assert forall i :: 0 <= i < |u| ==> u[i] == s[|p| + 1 + i] && v[i] == t[|p| + 1 + i];
  }

  lemma BaseCompare(a: uint8, b: uint8, c: uint8, ip: Address)
    requires ip.V4?
    ensures SameLan(Base(a, b, c), ip.ToString()) <==> ip.a == a && ip.b == b && ip.c == c
  {
    hide ToText, RunValue, QuadText;
    QuadIsBaseAndLast(ip.a, ip.b, ip.c, ip.d);
    ToTextReadsBack(a);
    ToTextReadsBack(b);
    ToTextReadsBack(c);
    ToTextReadsBack(ip.a);
    ToTextReadsBack(ip.b);
    ToTextReadsBack(ip.c);
    if SameLan(Base(a, b, c), ip.ToString()) {
      var u2, v2 := ToText(c) + "." + "", ToText(ip.c) + "." + ToText(ip.d);
      var u1, v1 := ToText(b) + "." + u2, ToText(ip.b) + "." + v2;
      assert Base(a, b, c) == ToText(a) + "." + u1;
      assert ip.ToString() == ToText(ip.a) + "." + v1;
      SameFirstPart(ToText(a), ToText(ip.a), u1, v1);
      SameFirstPart(ToText(b), ToText(ip.b), u2, v2);
      SameFirstPart(ToText(c), ToText(ip.c), "", ToText(ip.d));
      ToTextInjective(a, ip.a);
      ToTextInjective(b, ip.b);
      ToTextInjective(c, ip.c);
    }
  }

  lemma NoIPv6OnLan(a: uint8, b: uint8, c: uint8, text: string)
    requires ColonFirst(text)
    ensures !SameLan(Base(a, b, c), text)
  {
    ToTextReadsBack(a);
    ToTextReadsBack(b);
    ToTextReadsBack(c);
    var base := Base(a, b, c);
    var k :| 0 <= k < |text| && text[k] == ':' && forall i :: 0 <= i < k ==> text[i] != '.';
    assert base[|ToText(a)|] == '.';
    assert forall i :: 0 <= i < |base| ==> base[i] != ':';
  }

  predicate Shares24(address: Address, a: uint8, b: uint8, c: uint8) {
    address.V4? && address.a == a && address.b == b && address.c == c
  }

  /** For a sender with a canonical IPv4 address, comparing text prefixes is comparing the first
      three octets. */
  lemma PrefixCompareIs24(a: uint8, b: uint8, c: uint8, d: uint8, port: uint16, address: Address)
    requires address.V6? ==> ColonFirst(address.text)
    ensures SameLan(UpToLast(SenderText(a, b, c, d, port), '.'), address.ToString()) <==> Shares24(address, a, b, c)
  {
    QuadIsBaseAndLast(a, b, c, d);
    ToTextReadsBack(d);
    ToTextReadsBack(port);
    var tail := ToText(d) + ":" + ToText(port);
    assert SenderText(a, b, c, d, port) == Base(a, b, c) + tail;
    UpToLastDot(a, b, c, tail);
    if address.V4? {
      BaseCompare(a, b, c, address);
    } else {
      NoIPv6OnLan(a, b, c, address.text);
    }
  }

  /** `i` is the first interface with an address in the sender's /24, `j` its first IPv4 address. */
  predicate IsFirstLocal(interfaces: seq<seq<Address>>, a: uint8, b: uint8, c: uint8, i: nat, j: nat) {
    && i < |interfaces| && j < |interfaces[i]|
    && (exists k :: 0 <= k < |interfaces[i]| && Shares24(interfaces[i][k], a, b, c))
    && (forall h, k :: 0 <= h < i && 0 <= k < |interfaces[h]| ==> !Shares24(interfaces[h][k], a, b, c))
    && interfaces[i][j].V4?
    && (forall k :: 0 <= k < j ==> !interfaces[i][k].V4?)
  }

  lemma {:induction false} FirstIPv4At(host: Endian, addresses: seq<Address>, j: nat)
    requires j < |addresses| && addresses[j].V4?
    requires forall k :: 0 <= k < j ==> !addresses[k].V4?
    ensures FirstIPv4(host, addresses) == StringToUint(host, addresses[j].ToString())
  {
    if j == 0 {
    } else {
      FirstIPv4At(host, addresses[1..], j - 1);
    }
  }

  lemma {:induction false} LocalIPv4At(host: Endian, base: string, interfaces: seq<seq<Address>>, i: nat)
    requires i <= |interfaces|
    requires forall h :: 0 <= h < i ==> !AnyOnLan(base, interfaces[h])
    requires i < |interfaces| ==> AnyOnLan(base, interfaces[i])
    ensures LocalIPv4(host, base, interfaces) == if i < |interfaces| then FirstIPv4(host, interfaces[i]) else None
  {
    if i == 0 {
    } else {
      LocalIPv4At(host, base, interfaces[1..], i - 1);
    }
  }

  predicate PrintableInterfaces(interfaces: seq<seq<Address>>) {
    forall h, k :: 0 <= h < |interfaces| && 0 <= k < |interfaces[h]| && interfaces[h][k].V6? ==>
      ColonFirst(interfaces[h][k].text)
  }

  lemma AnyOnLanIs24(a: uint8, b: uint8, c: uint8, d: uint8, port: uint16, addresses: seq<Address>)
    requires forall k :: 0 <= k < |addresses| && addresses[k].V6? ==> ColonFirst(addresses[k].text)
    ensures AnyOnLan(UpToLast(SenderText(a, b, c, d, port), '.'), addresses)
       <==> exists k :: 0 <= k < |addresses| && Shares24(addresses[k], a, b, c)
  {
    forall k | 0 <= k < |addresses|
      ensures SameLan(UpToLast(SenderText(a, b, c, d, port), '.'), addresses[k].ToString())
          <==> Shares24(addresses[k], a, b, c)
    {
      PrefixCompareIs24(a, b, c, d, port, addresses[k]);
    }
  }

  /** The resolver answers the first IPv4 address of the first interface that has an address in the
      sender's /24 network, as a number whose bytes in memory are that address's octets; and it fails
      exactly when no interface has such an address. */
  lemma ResolvesFirstLocal(host: Endian, a: uint8, b: uint8, c: uint8, d: uint8, port: uint16,
                           interfaces: seq<seq<Address>>, i: nat, j: nat)
    requires PrintableInterfaces(interfaces)
    ensures var r := LocalIPv4(host, UpToLast(SenderText(a, b, c, d, port), '.'), interfaces);
            && (IsFirstLocal(interfaces, a, b, c, i, j) ==>
                  var x := interfaces[i][j];
                  r.Some? && Store32(host, r.value) == [Chr(x.a), Chr(x.b), Chr(x.c), Chr(x.d)])
            && (r == None <==> forall h, k :: 0 <= h < |interfaces| && 0 <= k < |interfaces[h]| ==>
                  !Shares24(interfaces[h][k], a, b, c))
  {
    var base := UpToLast(SenderText(a, b, c, d, port), '.');
    forall h | 0 <= h < |interfaces|
      ensures AnyOnLan(base, interfaces[h])
          <==> exists k :: 0 <= k < |interfaces[h]| && Shares24(interfaces[h][k], a, b, c)
    {
      AnyOnLanIs24(a, b, c, d, port, interfaces[h]);
    }
    var f := FirstOnLan(base, interfaces);
    LocalIPv4At(host, base, interfaces, f);
    if f < |interfaces| {
      var k :| 0 <= k < |interfaces[f]| && Shares24(interfaces[f][k], a, b, c);
      var g := FirstV4(interfaces[f], k);
      var x := interfaces[f][g];
      FirstIPv4At(host, interfaces[f], g);
      QuadRoundTrip(host, x.a, x.b, x.c, x.d);
      if IsFirstLocal(interfaces, a, b, c, i, j) {
        assert AnyOnLan(base, interfaces[i]);
        assert f == i;
        assert g == j;
      }
    }
  }

  /** The index of the first interface with an address on the network; the count when there is
      none. */
  lemma {:induction false} FirstOnLan(base: string, interfaces: seq<seq<Address>>) returns (i: nat)
    ensures i <= |interfaces|
    ensures forall h :: 0 <= h < i ==> !AnyOnLan(base, interfaces[h])
    ensures i < |interfaces| ==> AnyOnLan(base, interfaces[i])
  {
    i := 0;
    while i < |interfaces| && !AnyOnLan(base, interfaces[i])
      invariant i <= |interfaces|
      invariant forall h :: 0 <= h < i ==> !AnyOnLan(base, interfaces[h])
    {
      i := i + 1;
    }
  }

  lemma FirstV4(addresses: seq<Address>, k: nat) returns (j: nat)
    requires k < |addresses| && addresses[k].V4?
    ensures j <= k && addresses[j].V4?
    ensures forall h :: 0 <= h < j ==> !addresses[h].V4?
  {
    j := 0;
    while !addresses[j].V4?
      invariant j <= k
      invariant forall h :: 0 <= h < j ==> !addresses[h].V4?
      decreases k - j
    {
      j := j + 1;
    }
  }
}
