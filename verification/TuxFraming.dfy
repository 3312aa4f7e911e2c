// The packet framing of mp2/module/tuxctl-ld.c: three bytes whose high bits read
// 0, 1, 1.
module TuxFraming {
  import opened Bytes

  const PACKET := 3

  predicate High(b: Byte) {
    b >= 128
  }

  /** A packet starts at position i. */
  predicate PacketAt(s: seq<Byte>, i: int) {
    0 <= i && i + PACKET <= |s| && !High(s[i]) && High(s[i + 1]) && High(s[i + 2])
  }

  /** What the driver's loop reports when it is given the bytes s: it skips three
      bytes after a packet and one byte otherwise. */
  function Greedy(s: seq<Byte>): seq<seq<Byte>> {
    if |s| < PACKET then []
    else if PacketAt(s, 0) then [s[..PACKET]] + Greedy(s[PACKET..])
    else Greedy(s[1..])
  }

  /** What that loop leaves over for the next call. */
  function Leftover(s: seq<Byte>): seq<Byte> {
    if |s| < PACKET then s
    else if PacketAt(s, 0) then Leftover(s[PACKET..])
    else Leftover(s[1..])
  }

  /** Every packet of s, by looking at each position in turn. */
  ghost function AllPackets(s: seq<Byte>): seq<seq<Byte>> {
    if |s| < PACKET then []
    else (if PacketAt(s, 0) then [s[..PACKET]] else []) + AllPackets(s[1..])
  }

  /** The greedy loop misses no packet: packets cannot overlap. */
  lemma {:induction false} GreedyFindsAll(s: seq<Byte>)
    ensures Greedy(s) == AllPackets(s)
  {
    if |s| >= PACKET {
      if PacketAt(s, 0) {
        GreedyFindsAll(s[PACKET..]);
        SkipTwo(s);
      } else {
        GreedyFindsAll(s[1..]);
      }
    }
  }

  lemma SkipTwo(s: seq<Byte>)
    requires PacketAt(s, 0)
    ensures AllPackets(s[1..]) == AllPackets(s[PACKET..])
  {
    var t, u := s[1..], s[2..];
    assert t[1..] == u && u[1..] == s[PACKET..];
    assert !PacketAt(t, 0) && !PacketAt(u, 0);
    if |t| < PACKET {
    } else if |u| < PACKET {
      assert AllPackets(t) == AllPackets(u);
    } else {
      assert AllPackets(t) == AllPackets(u) && AllPackets(u) == AllPackets(s[PACKET..]);
    }
  }

  /** At most two bytes are left over, the last ones of the input. */
  lemma {:induction false} LeftoverIsShortSuffix(s: seq<Byte>)
    ensures |Leftover(s)| < PACKET && |Leftover(s)| <= |s|
    ensures Leftover(s) == s[|s| - |Leftover(s)|..]
  {
    if |s| >= PACKET {
      if PacketAt(s, 0) {
        LeftoverIsShortSuffix(s[PACKET..]);
      } else {
        LeftoverIsShortSuffix(s[1..]);
      }
    }
  }

  /** Framing can be interrupted anywhere: framing a, then the leftover of a with b
      behind it, reports what framing a and b together does. */
  lemma {:induction false} FramingIsIncremental(a: seq<Byte>, b: seq<Byte>)
    ensures Greedy(a + b) == Greedy(a) + Greedy(Leftover(a) + b)
    ensures Leftover(a + b) == Leftover(Leftover(a) + b)
  {
    hide PacketAt;
    if |a| >= PACKET {
      SameFront(a, b);
      if PacketAt(a, 0) {
        FramingIsIncremental(a[PACKET..], b);
      } else {
        FramingIsIncremental(a[1..], b);
      }
    }
  }

  lemma SameFront(a: seq<Byte>, b: seq<Byte>)
    requires |a| >= PACKET
    ensures PacketAt(a + b, 0) <==> PacketAt(a, 0)
    ensures (a + b)[PACKET..] == a[PACKET..] + b && (a + b)[..PACKET] == a[..PACKET] && (a + b)[1..] == a[1..] + b
  {
  }

  /** A packet of the controller: the high bits read 0, 1, 1 and seven bits of each byte
      are its contents. */
  function Framed(a: Byte, b: Byte, c: Byte): seq<Byte>
    requires a < 128 && b < 128 && c < 128
  {
    [a, 128 + b, 128 + c]
  }

  /** Any contents make a packet, and every packet is made that way. */
  lemma FramedIsPacket(p: seq<Byte>)
    ensures |p| == PACKET && PacketAt(p, 0) <==>
      exists a: Byte, b: Byte, c: Byte :: a < 128 && b < 128 && c < 128 && p == Framed(a, b, c)
  {
    if |p| == PACKET && PacketAt(p, 0) {
      assert p == Framed(p[0], p[1] - 128, p[2] - 128);
    }
  }

  ghost function Stream(packets: seq<seq<Byte>>): seq<Byte> {
    if packets == [] then [] else packets[0] + Stream(packets[1..])
  }

  /** What the controller sends is what the driver handles. */
  lemma {:induction false} PacketsComeThrough(packets: seq<seq<Byte>>)
    requires forall k | 0 <= k < |packets| :: |packets[k]| == PACKET && PacketAt(packets[k], 0)
    ensures Greedy(Stream(packets)) == packets && Leftover(Stream(packets)) == []
  {
    if packets != [] {
      var p, rest := packets[0], Stream(packets[1..]);
      PacketsComeThrough(packets[1..]);
      SameFront(p, rest);
      assert p[..PACKET] == p && p[PACKET..] + rest == rest;
    }
  }

  /** The packets of s are those that start before k and those that start after. */
  lemma {:induction false} SplitPackets(s: seq<Byte>, k: nat)
    requires k + 2 <= |s|
    ensures AllPackets(s) == AllPackets(s[..k + 2]) + AllPackets(s[k..])
    decreases k
  {
    if k == 0 {
      assert s[0..] == s;
      assert AllPackets(s[..2]) == [];
    } else {
      var t := s[1..];
      SplitPackets(t, k - 1);
      FirstPacket(s, k + 2);
      FirstPacket(s, |s|);
      assert s[..|s|] == s && t[..|s| - 1] == t && t[k - 1..] == s[k..];
    }
  }

  function First(s: seq<Byte>): seq<seq<Byte>> {
    if PacketAt(s, 0) then [s[..PACKET]] else []
  }

  lemma FirstPacket(s: seq<Byte>, n: nat)
    requires PACKET <= n <= |s|
    ensures AllPackets(s[..n]) == First(s) + AllPackets(s[1..][..n - 1])
  {
    assert s[..n][..PACKET] == s[..PACKET] && s[..n][1..] == s[1..][..n - 1];
    assert PacketAt(s[..n], 0) <==> PacketAt(s, 0);
  }

  /** No garbage in front hides an intact packet: it is reported, right before the
      packets that follow it. */
  lemma GarbageHidesNothing(garbage: seq<Byte>, p: seq<Byte>, rest: seq<Byte>)
    requires |p| == PACKET && PacketAt(p, 0)
    ensures Greedy(garbage + p + rest) == Greedy(garbage + p[..2]) + [p] + Greedy(rest)
  {
    var s := garbage + p + rest;
    GreedyFindsAll(s);
    GreedyFindsAll(garbage + p[..2]);
    GreedyFindsAll(p + rest);
    SplitPackets(s, |garbage|);
    assert s[..|garbage| + 2] == garbage + p[..2] && s[|garbage|..] == p + rest;
    assert (p + rest)[..PACKET] == p && (p + rest)[PACKET..] == rest && PacketAt(p + rest, 0);
    assert Greedy(p + rest) == [p] + Greedy(rest);
  }
}
