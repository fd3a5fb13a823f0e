/**
 * session_creator.py: the MAC address string `mac_address_hex` returns
 * (the psutil branch, and the `uuid.getnode()` fallback that prints 48 bits
 * as 12 lowercase hex digits, most significant byte first), and the session
 * folder name `create_session_folder` builds from a timestamp and that MAC.
 * utils.py:10-29 and capture.py:28-47 hold the same `mac_address_hex`.
 */
module SessionCreator {
  import opened Wrappers
  import opened PyText

  /** `OUTPUT_ROOT`. */
  const OutputRoot: string := "recordings"

  // ---------------------------------------------------------------- the uuid fallback

  /** `node >> k`. */
  function Shr(node: nat, k: nat): nat {
    if k == 0 then node else Shr(node / 2, k - 1)
  }

  /** `(node >> ele) & 0xff`. */
  function ByteAt(node: nat, ele: nat): (b: nat)
    ensures b < 256
  {
    Shr(node, ele) % 256
  }

  predicate IsLowerHex(c: char) {
    ('0' <= c <= '9') || ('a' <= c <= 'f')
  }

  function HexDigitValue(c: char): (d: nat)
    requires IsLowerHex(c)
    ensures d < 16
  {
    if c <= '9' then c as nat - '0' as nat else c as nat - 'a' as nat + 10
  }

  function HexDigit(d: nat): (c: char)
    requires d < 16
    ensures IsLowerHex(c) && HexDigitValue(c) == d
  {
    if d < 10 then ('0' as nat + d) as char else ('a' as nat + d - 10) as char
  }

  /** `f"{b:02x}"` for a byte: two lowercase digits, high nibble first. */
  function Hex2(b: nat): (s: string)
    requires b < 256
    ensures |s| == 2 && IsLowerHex(s[0]) && IsLowerHex(s[1])
    ensures 16 * HexDigitValue(s[0]) + HexDigitValue(s[1]) == b
  {
    [HexDigit(b / 16), HexDigit(b % 16)]
  }

  /** `range(ele, -1, -8)`. */
  function Shifts(ele: int): (r: seq<nat>)
    decreases ele + 8
  {
    if ele < 0 then [] else [ele as nat] + Shifts(ele - 8)
  }

  /** `''.join(f'{(node >> ele) & 0xff:02x}' for ele in shifts)`. */
  function HexJoin(node: nat, shifts: seq<nat>): (s: string)
    ensures |s| == 2 * |shifts|
    ensures forall i :: 0 <= i < |s| ==> IsLowerHex(s[i])
  {
    if shifts == [] then [] else Hex2(ByteAt(node, shifts[0])) + HexJoin(node, shifts[1..])
  }

  /** The fallback string: bytes 40, 32, ..., 0 of the node. */
  function MacFromNode(node: nat): string {
    HexJoin(node, Shifts(40))
  }

  /** `first_octet & 0x01`: the multicast bit that `uuid.getnode()` sets on a random node. */
  predicate NodeLooksRandom(node: nat) {
    ByteAt(node, 40) % 2 == 1
  }

  /** The number a string of lowercase hex digits denotes, most significant digit first. */
  function HexValue(s: string): nat
    requires forall i :: 0 <= i < |s| ==> IsLowerHex(s[i])
  {
    if s == [] then 0 else 16 * HexValue(s[..|s| - 1]) + HexDigitValue(s[|s| - 1])
  }

  lemma HexValueAppend(s: string, b: nat)
    requires b < 256
    requires forall i :: 0 <= i < |s| ==> IsLowerHex(s[i])
    ensures forall i :: 0 <= i < |s + Hex2(b)| ==> IsLowerHex((s + Hex2(b))[i])
    ensures HexValue(s + Hex2(b)) == 256 * HexValue(s) + b
  {
    var h := Hex2(b);
    var t := s + h;
    assert forall i :: 0 <= i < |t| ==> IsLowerHex(t[i]) by {
      forall i | 0 <= i < |t| ensures IsLowerHex(t[i]) {
        if i >= |s| {
          assert t[i] == h[i - |s|];
        }
      }
    }
    assert t[..|t| - 1] == s + [h[0]];
    assert (s + [h[0]])[..|s|] == s;
  }

  /** The six digit pairs of the fallback, in order. */
  lemma MacFromNodeSpelled(node: nat)
    ensures MacFromNode(node) == Hex2(ByteAt(node, 40)) + Hex2(ByteAt(node, 32)) + Hex2(ByteAt(node, 24))
      + Hex2(ByteAt(node, 16)) + Hex2(ByteAt(node, 8)) + Hex2(ByteAt(node, 0))
  {
    ShiftsFromForty();
    var b0, b1, b2 := Hex2(ByteAt(node, 0)), Hex2(ByteAt(node, 8)), Hex2(ByteAt(node, 16));
    var b3, b4, b5 := Hex2(ByteAt(node, 24)), Hex2(ByteAt(node, 32)), Hex2(ByteAt(node, 40));
    HexJoinCons(node, 0, []);
    HexJoinCons(node, 8, [0]);
    HexJoinCons(node, 16, [8, 0]);
    HexJoinCons(node, 24, [16, 8, 0]);
    HexJoinCons(node, 32, [24, 16, 8, 0]);
    HexJoinCons(node, 40, [32, 24, 16, 8, 0]);
    assert [0] == [0] + [];
    assert MacFromNode(node) == b5 + (b4 + (b3 + (b2 + (b1 + (b0 + [])))));
    Concat6(b5, b4, b3, b2, b1, b0);
  }

  lemma ShiftsFromForty()
    ensures Shifts(40) == [40, 32, 24, 16, 8, 0]
  {
    assert Shifts(-8) == [];
  }

  lemma HexJoinCons(node: nat, x: nat, rest: seq<nat>)
    ensures HexJoin(node, [x] + rest) == Hex2(ByteAt(node, x)) + HexJoin(node, rest)
  {
    assert ([x] + rest)[1..] == rest;
  }

  lemma Concat6(a: string, b: string, c: string, d: string, e: string, f: string)
    ensures a + (b + (c + (d + (e + (f + []))))) == a + b + c + d + e + f
  {
    assert f + [] == f;
  }

  lemma {:induction false} ShrStep(node: nat, k: nat)
    ensures Shr(node, k + 1) == Shr(node, k) / 2
    decreases k
  {
    if k > 0 {
      ShrStep(node / 2, k - 1);
    }
  }

  /** Shifting eight more places divides by 256. */
  lemma ShrByte(node: nat, e: nat)
    ensures Shr(node, e + 8) == Shr(node, e) / 256
  {
    var x := Shr(node, e);
    ShrStep(node, e);
    ShrStep(node, e + 1);
    ShrStep(node, e + 2);
    ShrStep(node, e + 3);
    ShrStep(node, e + 4);
    ShrStep(node, e + 5);
    ShrStep(node, e + 6);
    ShrStep(node, e + 7);
    assert x / 2 / 2 == x / 4;
    assert x / 4 / 2 == x / 8;
    assert x / 8 / 2 == x / 16;
    assert x / 16 / 2 == x / 32;
    assert x / 32 / 2 == x / 64;
    assert x / 64 / 2 == x / 128;
    assert x / 128 / 2 == x / 256;
  }

  /** `node >> e` is `node >> (e + 8)` with byte `e` below it. */
  lemma ShrSplit(node: nat, e: nat)
    ensures Shr(node, e) == 256 * Shr(node, e + 8) + ByteAt(node, e)
  {
    ShrByte(node, e);
  }

  /** Six bytes folded high to low: the linear arithmetic behind the decode. */
  lemma Fold48(x0: nat, x8: nat, x16: nat, x24: nat, x32: nat, x40: nat, x48: nat,
               b0: nat, b8: nat, b16: nat, b24: nat, b32: nat, b40: nat, v: nat)
    requires b0 < 256 && b8 < 256 && b16 < 256 && b24 < 256 && b32 < 256 && b40 < 256
    requires x0 == 256 * x8 + b0 && x8 == 256 * x16 + b8 && x16 == 256 * x24 + b16
    requires x24 == 256 * x32 + b24 && x32 == 256 * x40 + b32 && x40 == 256 * x48 + b40
    requires v == 256 * (256 * (256 * (256 * (256 * b40 + b32) + b24) + b16) + b8) + b0
    ensures v == x0 % 0x1_0000_0000_0000
  {
    assert x0 == 0x1_0000_0000_0000 * x48 + v;
  }

  /** The value of the six pairs, high byte first. */
  lemma MacFromNodeValue(node: nat)
    ensures forall i :: 0 <= i < |MacFromNode(node)| ==> IsLowerHex(MacFromNode(node)[i])
    ensures HexValue(MacFromNode(node)) == 256 * (256 * (256 * (256 * (256 * ByteAt(node, 40) + ByteAt(node, 32))
      + ByteAt(node, 24)) + ByteAt(node, 16)) + ByteAt(node, 8)) + ByteAt(node, 0)
  {
    MacFromNodeSpelled(node);
    var s1 := Hex2(ByteAt(node, 40));
    var s2 := s1 + Hex2(ByteAt(node, 32));
    var s3 := s2 + Hex2(ByteAt(node, 24));
    var s4 := s3 + Hex2(ByteAt(node, 16));
    var s5 := s4 + Hex2(ByteAt(node, 8));
    HexValueAppend([], ByteAt(node, 40));
    assert [] + s1 == s1;
    HexValueAppend(s1, ByteAt(node, 32));
    HexValueAppend(s2, ByteAt(node, 24));
    HexValueAppend(s3, ByteAt(node, 16));
    HexValueAppend(s4, ByteAt(node, 8));
    HexValueAppend(s5, ByteAt(node, 0));
  }

  /** Reading the 12 digits back as a hexadecimal number gives the low 48 bits of the node. */
  lemma MacFromNodeDecodes(node: nat)
    ensures |MacFromNode(node)| == 12
    ensures forall i :: 0 <= i < 12 ==> IsLowerHex(MacFromNode(node)[i])
    ensures HexValue(MacFromNode(node)) == node % 0x1_0000_0000_0000
  {
    MacFromNodeBytes(node, 0);
    MacFromNodeValue(node);
    ShrSplit(node, 0);
    ShrSplit(node, 8);
    ShrSplit(node, 16);
    ShrSplit(node, 24);
    ShrSplit(node, 32);
    ShrSplit(node, 40);
    Fold48(Shr(node, 0), Shr(node, 8), Shr(node, 16), Shr(node, 24), Shr(node, 32), Shr(node, 40),
      Shr(node, 48), ByteAt(node, 0), ByteAt(node, 8), ByteAt(node, 16), ByteAt(node, 24), ByteAt(node, 32),
      ByteAt(node, 40), HexValue(MacFromNode(node)));
  }

  /** On a 48-bit node (all `uuid.getnode()` returns) the fallback loses nothing. */
  lemma MacFromNodeRoundTrip(node: nat)
    requires node < 0x1_0000_0000_0000
    ensures forall i :: 0 <= i < |MacFromNode(node)| ==> IsLowerHex(MacFromNode(node)[i])
    ensures HexValue(MacFromNode(node)) == node
  {
    MacFromNodeDecodes(node);
  }

  lemma {:induction false} HexJoinPair(node: nat, shifts: seq<nat>, k: nat)
    requires k < |shifts|
    ensures HexJoin(node, shifts)[2 * k..2 * k + 2] == Hex2(ByteAt(node, shifts[k]))
    decreases k
  {
    var hi := Hex2(ByteAt(node, shifts[0]));
    var rest := HexJoin(node, shifts[1..]);
    assert HexJoin(node, shifts) == hi + rest;
    if k > 0 {
      HexJoinPair(node, shifts[1..], k - 1);
      PairAfterHead(hi, rest, k - 1);
    } else {
      PairAtHead(hi, rest);
    }
  }

  lemma PairAfterHead(hi: string, rest: string, j: nat)
    requires |hi| == 2 && 2 * j + 2 <= |rest|
    ensures (hi + rest)[2 * j + 2..2 * j + 4] == rest[2 * j..2 * j + 2]
  {
    assert (hi + rest)[2 * j + 2..2 * j + 4] == [rest[2 * j], rest[2 * j + 1]];
  }

  lemma PairAtHead(hi: string, rest: string)
    requires |hi| == 2
    ensures (hi + rest)[0..2] == hi
  {
    assert (hi + rest)[0..2] == [hi[0], hi[1]];
  }

  /** Digits 2k and 2k+1 are byte `40 - 8k` of the node: most significant byte first. */
  lemma MacFromNodeBytes(node: nat, k: nat)
    requires k < 6
    ensures |MacFromNode(node)| == 12
    ensures MacFromNode(node)[2 * k..2 * k + 2] == Hex2(ByteAt(node, 40 - 8 * k))
  {
    var sh := Shifts(40);
    assert sh == [40, 32, 24, 16, 8, 0];
    assert sh[k] == 40 - 8 * k;
    HexJoinPair(node, sh, k);
  }

  /** The warning fires exactly when the second hex digit is odd — bit 0 of the top byte. */
  lemma WarningIsOddSecondDigit(node: nat)
    ensures |MacFromNode(node)| == 12 && IsLowerHex(MacFromNode(node)[1])
    ensures NodeLooksRandom(node) <==> HexDigitValue(MacFromNode(node)[1]) % 2 == 1
  {
    MacFromNodeBytes(node, 0);
    var pair := MacFromNode(node)[0..2];
    assert MacFromNode(node)[1] == pair[1];
  }

  // ---------------------------------------------------------------- the psutil branch

  /** One address of an interface: whether its family is AF_LINK, and its address text. */
  datatype NetAddr = NetAddr(isLink: bool, address: string)

  const ZeroMac: string := "00:00:00:00:00:00"

  /** `family in ("AF_LINK", psutil.AF_LINK)` and `mac and mac != "00:00:00:00:00:00"`. */
  predicate Usable(a: NetAddr) {
    a.isLink && a.address != [] && a.address != ZeroMac
  }

  /** The addresses of all interfaces, in the dictionary's order. */
  function Flatten(ifaces: seq<seq<NetAddr>>): seq<NetAddr> {
    if ifaces == [] then [] else ifaces[0] + Flatten(ifaces[1..])
  }

  /** The first usable address the nested loops reach. */
  function FirstUsable(addrs: seq<NetAddr>): Option<NetAddr> {
    if addrs == [] then None
    else if Usable(addrs[0]) then Some(addrs[0])
    else FirstUsable(addrs[1..])
  }

  lemma {:induction false} FirstUsableIsFirst(addrs: seq<NetAddr>)
    ensures FirstUsable(addrs).None? <==> forall i :: 0 <= i < |addrs| ==> !Usable(addrs[i])
    ensures FirstUsable(addrs).Some? ==>
      exists i :: (0 <= i < |addrs| && addrs[i] == FirstUsable(addrs).value &&
        Usable(addrs[i]) && forall j :: 0 <= j < i ==> !Usable(addrs[j]))
  {
    if addrs != [] && !Usable(addrs[0]) {
      var rest := addrs[1..];
      FirstUsableIsFirst(rest);
      assert forall i :: 0 <= i < |rest| ==> rest[i] == addrs[i + 1];
      if FirstUsable(rest).Some? {
        var i :| 0 <= i < |rest| && rest[i] == FirstUsable(rest).value &&
          Usable(rest[i]) && forall j :: 0 <= j < i ==> !Usable(rest[j]);
        assert addrs[i + 1] == rest[i];
        assert forall j :: 0 <= j < i + 1 ==> !Usable(addrs[j]) by {
          forall j | 0 <= j < i + 1 ensures !Usable(addrs[j]) {
            if j > 0 {
              assert addrs[j] == rest[j - 1];
            }
          }
        }
      } else {
        forall i | 0 <= i < |addrs| ensures !Usable(addrs[i]) {
          if i > 0 {
            assert addrs[i] == rest[i - 1];
          }
        }
      }
    }
  }

  /** The psutil branch: None when psutil is unavailable or no address is usable. */
  function LinkMac(ifaces: Option<seq<seq<NetAddr>>>): (r: Option<string>)
    ensures r.Some? ==> ':' !in r.value
  {
    match ifaces
    case None => None
    case Some(l) =>
      match FirstUsable(Flatten(l))
      case Some(a) => Some(RemoveAll(a.address, ':'))
      case None => None
  }

  /** `mac_address_hex()`: the string, and whether the random-node warning is printed. */
  datatype MacResult = MacResult(mac: string, warned: bool)

  function MacAddressHex(ifaces: Option<seq<seq<NetAddr>>>, node: nat): (r: MacResult)
    ensures LinkMac(ifaces).Some? ==> r == MacResult(LinkMac(ifaces).value, false)
    ensures LinkMac(ifaces).None? ==> r.mac == MacFromNode(node) && (r.warned <==> NodeLooksRandom(node))
  {
    match LinkMac(ifaces)
    case Some(m) => MacResult(m, false)
    case None => MacResult(MacFromNode(node), NodeLooksRandom(node))
  }

  function Concat(parts: seq<string>): string {
    if parts == [] then [] else parts[0] + Concat(parts[1..])
  }

  /** Removing the colons of `aa:bb:...:ff` leaves the pairs side by side. */
  lemma {:induction false} RemoveColonsJoined(parts: seq<string>)
    requires forall k :: 0 <= k < |parts| ==> ':' !in parts[k]
    ensures RemoveAll(JoinWith(parts, ':'), ':') == Concat(parts)
    decreases |parts|
  {
    if |parts| == 1 {
      assert Concat(parts) == parts[0] + Concat([]);
    } else if |parts| > 1 {
      var rest := parts[1..];
      RemoveColonsJoined(rest);
      RemoveAllConcat(parts[0] + [':'], JoinWith(rest, ':'), ':');
      RemoveAllConcat(parts[0], [':'], ':');
      assert RemoveAll([':'], ':') == [];
    }
  }

  /** A usable address reached first on the psutil branch is returned without its colons. */
  lemma PsutilAddressReturned(ifaces: seq<seq<NetAddr>>, parts: seq<string>, node: nat)
    requires forall k :: 0 <= k < |parts| ==> ':' !in parts[k]
    requires FirstUsable(Flatten(ifaces)) == Some(NetAddr(true, JoinWith(parts, ':')))
    ensures MacAddressHex(Some(ifaces), node) == MacResult(Concat(parts), false)
  {
    RemoveColonsJoined(parts);
  }

  // ---------------------------------------------------------------- create_session_folder

  /** `f"{now_timestamp_str()}_{mac_address_hex()}"`. */
  function SessionName(timestamp: string, mac: string): string {
    timestamp + "_" + mac
  }

  /** `os.path.join(OUTPUT_ROOT, session_name)`. */
  function SessionRoot(timestamp: string, mac: string): string {
    PathJoin(OutputRoot, SessionName(timestamp, mac))
  }

  /**
   * A timestamp that does not start with '/' (strftime's digits never do;
   * an empty one leaves the name starting with '_') puts the session under
   * "recordings/", its name ending in the MAC.
   */
  lemma SessionRootLayout(timestamp: string, mac: string)
    requires timestamp == [] || timestamp[0] != '/'
    ensures SessionRoot(timestamp, mac) == "recordings/" + timestamp + "_" + mac
    ensures var r := SessionRoot(timestamp, mac); r[|r| - |mac|..] == mac
  {
    var name := SessionName(timestamp, mac);
    assert name[0] == if timestamp == [] then '_' else timestamp[0];
    assert OutputRoot[|OutputRoot| - 1] == 's';
  }
}
