// The receive side of the tux line discipline: a ring buffer feeds the framer,
// twelve bytes at a time, with up to two bytes carried over between calls.
module TuxLine {
  import opened Bytes
  import opened TuxFraming

  const TUXCTL_BUFSIZE := 64
  const PACKET_BUF := 12

  function Used(start: int, end: int): int {
    if start <= end then end - start else TUXCTL_BUFSIZE + end - start
  }

  function Next(i: int): int {
    (i + 1) % TUXCTL_BUFSIZE
  }

  /** The bytes in a ring buffer, oldest first. */
  ghost function RingOf(b: seq<Byte>, start: int, end: int): (r: seq<Byte>)
    requires |b| == TUXCTL_BUFSIZE && 0 <= start < TUXCTL_BUFSIZE && 0 <= end < TUXCTL_BUFSIZE
    ensures |r| == Used(start, end)
  {
    if start <= end then b[start..end] else b[start..] + b[..end]
  }

  /** The packets already handled and the bytes still pending account for all the
      bytes accepted so far, however they were split up. */
  ghost predicate StreamInvariant(accepted: seq<Byte>, handled: seq<seq<Byte>>, pending: seq<Byte>) {
    && handled + Greedy(pending) == Greedy(accepted)
    && Leftover(pending) == Leftover(accepted)
    && |pending| <= |accepted| && accepted[|accepted| - |pending|..] == pending
  }

  lemma AcceptMore(accepted: seq<Byte>, handled: seq<seq<Byte>>, pending: seq<Byte>, more: seq<Byte>)
    requires StreamInvariant(accepted, handled, pending)
    ensures StreamInvariant(accepted + more, handled, pending + more)
  {
    hide Greedy, Leftover;
    FramingIsIncremental(accepted, more);
    FramingIsIncremental(pending, more);
    Associative(handled, Greedy(pending), Greedy(Leftover(pending) + more));
    DropFront(accepted, more, |accepted| - |pending|);
  }

  lemma HandleSome(accepted: seq<Byte>, handled: seq<seq<Byte>>, now: seq<Byte>, later: seq<Byte>)
    requires StreamInvariant(accepted, handled, now + later)
    ensures StreamInvariant(accepted, handled + Greedy(now), Leftover(now) + later)
  {
    hide Greedy, Leftover;
    FramingIsIncremental(now, later);
    Associative(handled, Greedy(now), Greedy(Leftover(now) + later));
    LeftoverIsShortSuffix(now);
    SuffixKept(accepted, now, later, Leftover(now));
  }

  lemma SuffixKept(s: seq<Byte>, now: seq<Byte>, later: seq<Byte>, rest: seq<Byte>)
    requires |now + later| <= |s| && s[|s| - |now + later|..] == now + later
    requires |rest| <= |now| && rest == now[|now| - |rest|..]
    ensures |rest + later| <= |s| && s[|s| - |rest + later|..] == rest + later
  {
    DropFront(now, later, |now| - |rest|);
    SuffixOfSuffix(s, now + later, |now| - |rest|);
  }

  lemma Associative<T>(a: seq<T>, b: seq<T>, c: seq<T>)
    ensures (a + b) + c == a + (b + c)
  {
  }

  lemma DropFront(now: seq<Byte>, later: seq<Byte>, k: nat)
    requires k <= |now|
    ensures (now + later)[k..] == now[k..] + later
  {
  }

  lemma SuffixOfSuffix(s: seq<Byte>, t: seq<Byte>, k: nat)
    requires |t| <= |s| && s[|s| - |t|..] == t && k <= |t|
    ensures s[|s| - |t[k..]|..] == t[k..]
  {
  }

  lemma NothingPending(accepted: seq<Byte>, handled: seq<seq<Byte>>, pending: seq<Byte>)
    requires StreamInvariant(accepted, handled, pending) && Greedy(pending) == []
    ensures handled == Greedy(accepted)
  {
  }

  /** The stream that was cut into these pieces. */
  ghost function Joined(calls: seq<seq<Byte>>): seq<Byte> {
    if calls == [] then [] else Joined(calls[..|calls| - 1]) + calls[|calls| - 1]
  }

  lemma JoinedNone(s: seq<Byte>, calls: seq<seq<Byte>>)
    requires calls == []
    ensures s + Joined(calls) == s
  {
  }

  lemma JoinedNext(s: seq<Byte>, calls: seq<seq<Byte>>, k: nat)
    requires k < |calls|
    ensures s + Joined(calls[..k]) + calls[k] == s + Joined(calls[..k + 1])
  {
    assert calls[..k + 1][..k] == calls[..k];
  }

  /** Calls short enough to be framed at once, with two bytes saved from before. */
  predicate AllShort(calls: seq<seq<Byte>>) {
    forall k | 0 <= k < |calls| :: |calls[k]| <= PACKET_BUF - 2
  }

  lemma ShortAt(calls: seq<seq<Byte>>, k: nat)
    requires k < |calls|
    ensures AllShort(calls) ==> |calls[k]| <= PACKET_BUF - 2
  {
  }

  lemma PendingMeansMore(accepted: seq<Byte>, handled: seq<seq<Byte>>, pending: seq<Byte>)
    requires StreamInvariant(accepted, handled, pending)
    ensures handled + Greedy(pending) == Greedy(accepted)
  {
  }

  class LineDiscipline {
    const rx: array<Byte>
    var rxStart: int
    var rxEnd: int
    const saved: array<Byte>
    var nSaved: int
    /** The packets passed to tuxctl_handle_packet, in order. */
    var handled: seq<seq<Byte>>
    /** The bytes that found room in the ring buffer, in order. */
    ghost var accepted: seq<Byte>

    constructor ()
      ensures Valid() && Ring() == [] && handled == [] && accepted == []
      ensures fresh(rx) && fresh(saved)
    {
      rx := new Byte[TUXCTL_BUFSIZE](_ => 0);
      saved := new Byte[2](_ => 0);
      rxStart, rxEnd, nSaved := 0, 0, 0;
      handled, accepted := [], [];
    }

    ghost predicate Shape()
      reads this
    {
      && rx.Length == TUXCTL_BUFSIZE && saved.Length == 2 && rx != saved
      && 0 <= rxStart < TUXCTL_BUFSIZE && 0 <= rxEnd < TUXCTL_BUFSIZE && 0 <= nSaved <= 2
    }

    ghost function Ring(): seq<Byte>
      requires Shape()
      reads this, rx
    {
      RingOf(rx[..], rxStart, rxEnd)
    }

    ghost function Pending(): seq<Byte>
      requires Shape()
      reads this, rx, saved
    {
      saved[..nSaved] + Ring()
    }

    ghost predicate Valid()
      reads this, rx, saved
    {
      Shape() && StreamInvariant(accepted, handled, Pending())
    }

    /** Append one byte to a ring buffer that is not full. */
    method Push(b: Byte)
      requires Shape() && Next(rxEnd) != rxStart
      modifies this`rxEnd, rx
      ensures Shape() && Ring() == old(Ring()) + [b]
    {
      rx[rxEnd] := b;
      rxEnd := Next(rxEnd);
    }

    /** Take the oldest byte out of a ring buffer that is not empty. */
    method Pop() returns (b: Byte)
      requires Shape() && rxStart != rxEnd
      modifies this`rxStart
      ensures Shape() && old(Ring()) == [b] + Ring()
    {
      b := rx[rxStart];
      rxStart := Next(rxStart);
    }

    /** tuxctl_ldisc_get: the oldest bytes, at most n of them, into buf from `at` on. */
    method Get(buf: array<Byte>, at: int, n: int) returns (r: int)
      requires Shape() && buf != rx && buf != saved && 0 <= at && 0 <= n && at + n <= buf.Length
      modifies this`rxStart, buf
      ensures Shape() && r == (if n < |old(Ring())| then n else |old(Ring())|)
      ensures buf[..at] == old(buf[..at]) && buf[at..at + r] == old(Ring())[..r]
      ensures Ring() == old(Ring())[r..]
    {
      hide RingOf;
      ghost var ring := Ring();
      r := 0;
      assert ring == ring[0..] && buf[at..at] == [];
      while r < n && rxStart != rxEnd
        invariant 0 <= r <= n && r <= |ring| && Shape()
        invariant Ring() == ring[r..] && buf[..at] == old(buf[..at]) && buf[at..at + r] == ring[..r]
      {
        var b := Pop();
        buf[at + r] := b;
        r := r + 1;
      }
    }

    /** Copy the saved bytes to the front of the packet buffer. */
    method LoadSaved(packet: array<Byte>)
      requires Shape() && packet.Length == PACKET_BUF && packet != saved && packet != rx
      modifies packet
      ensures packet[..nSaved] == saved[..nSaved]
    {
      var i := 0;
      while i < nSaved
        invariant 0 <= i <= nSaved && forall k | 0 <= k < i :: packet[k] == saved[k]
      {
        packet[i] := saved[i];
        i := i + 1;
      }
    }

    /** Save the last bytes of the packet buffer. */
    method SaveRest(packet: array<Byte>, i: int, n: int)
      requires Shape() && packet != saved && packet != rx && 0 <= i <= n <= packet.Length && n - i <= 2
      modifies this`nSaved, saved
      ensures Shape() && Ring() == old(Ring()) && saved[..nSaved] == packet[i..n]
    {
      nSaved := n - i;
      var j := 0;
      while j < nSaved
        invariant nSaved == n - i && 0 <= j <= nSaved && forall k | 0 <= k < j :: saved[k] == packet[i + k]
      {
        saved[j] := packet[i + j];
        j := j + 1;
      }
    }

    /** tuxctl_ldisc_data_callback: frame what is saved and up to twelve bytes of
        what is in the ring, and save the last bytes for next time. */
    method DataCallback()
      requires Valid()
      modifies this`rxStart, this`nSaved, this`handled, saved
      ensures Valid() && old(handled) <= handled
      ensures Ring() == if |old(Pending())| <= PACKET_BUF then [] else old(Pending())[PACKET_BUF..]
    {
      hide StreamInvariant, Greedy, Leftover, RingOf;
      ghost var ring, held := Ring(), saved[..nSaved];
      var packet := new Byte[PACKET_BUF](_ => 0);
      LoadSaved(packet);
      var r := Get(packet, nSaved, PACKET_BUF - nSaved);
      var n := nSaved + r;
      ghost var now, later := packet[..n], Ring();
      assert now == held + ring[..r] by {
        assert packet[..n] == packet[..nSaved] + packet[nSaved..nSaved + r];
      }
      assert held + ring == now + later;
      var i := FramePackets(packet, n);
      HandleSome(accepted, old(handled), now, later);
      SaveRest(packet, i, n);
      assert saved[..nSaved] == now[i..];
    }

    /** The framing loop over the first n bytes of the packet buffer: everything
        reported, and the index of the first byte left over. */
    method FramePackets(packet: array<Byte>, n: int) returns (i: int)
      requires 0 <= n <= packet.Length
      modifies this`handled
      ensures handled == old(handled) + Greedy(packet[..n])
      ensures 0 <= i <= n && n - i <= 2 && packet[..n][i..] == Leftover(packet[..n])
    {
      ghost var s := packet[..n];
      ghost var done: seq<seq<Byte>> := [];
      i := 0;
      assert s[0..] == s;
      while i < n - 2
        invariant 0 <= i <= n
        invariant handled == old(handled) + done
        invariant Greedy(s) == done + Greedy(s[i..]) && Leftover(s) == Leftover(s[i..])
      {
        ghost var t := s[i..];
        assert t[1..] == s[i + 1..] && t[PACKET..] == s[i + PACKET..];
        if !High(packet[i]) && High(packet[i + 1]) && High(packet[i + 2]) {
          assert packet[i..i + PACKET] == t[..PACKET];
          handled := handled + [packet[i..i + PACKET]];
          done := done + [t[..PACKET]];
          i := i + 3;
        } else {
          i := i + 1;
        }
      }
    }

    /** The loop of tuxctl_ldisc_rcv_buf: store bytes while there is room. */
    method Store(cp: seq<Byte>) returns (c: int)
      requires Shape()
      modifies this`rxEnd, rx
      ensures Shape() && 0 <= c <= |cp| && Ring() == old(Ring()) + cp[..c]
      ensures c < |cp| ==> |Ring()| == TUXCTL_BUFSIZE - 1
    {
      c := 0;
      ghost var ring := Ring();
      while c < |cp| && Next(rxEnd) != rxStart
        invariant 0 <= c <= |cp| && Shape() && Ring() == ring + cp[..c]
      {
        Push(cp[c]);
        c := c + 1;
      }
    }

    /** tuxctl_ldisc_rcv_buf: accept c bytes, as many as fit, then call back. Bytes
        are refused only when the ring holds 63 of them. When what was pending and
        what arrived fits the packet buffer, everything accepted so far has been
        framed. */
    method ReceiveBuf(cp: seq<Byte>) returns (ghost c: int)
      requires Valid()
      modifies this, rx, saved
      ensures Valid() && old(handled) <= handled
      ensures 0 <= c <= |cp| && accepted == old(accepted) + cp[..c]
      ensures c < |cp| ==> |old(Ring())| + c == TUXCTL_BUFSIZE - 1
      ensures |old(Pending())| + |cp| <= PACKET_BUF ==> handled == Greedy(accepted) && Ring() == []
      ensures old(Ring()) == [] && |cp| <= PACKET_BUF - 2 ==> c == |cp| && handled == Greedy(accepted) && Ring() == []
    {
      hide StreamInvariant, Leftover, RingOf;
      ghost var before := Pending();
      c := Store(cp);
      AcceptMore(accepted, handled, before, cp[..c]);
      accepted := accepted + cp[..c];
      assert Pending() == before + cp[..c];
      DataCallback();
      if Ring() == [] {
        assert Pending() == saved[..nSaved] && Greedy(Pending()) == [];
        NothingPending(accepted, handled, Pending());
      }
    }

    /** A whole run over any receive calls, from any state. Of each call the first bytes
        are accepted, and the packets handled, followed by those of the pending bytes, are
        the packets of everything accepted. When the ring starts empty and no call
        brings more than ten bytes, nothing is refused and every packet of the stream has
        been handled, once and in order. */
    method ReceiveAll(calls: seq<seq<Byte>>) returns (ghost taken: seq<seq<Byte>>)
      requires Valid()
      modifies this, rx, saved
      ensures Valid() && |taken| == |calls| && forall k | 0 <= k < |calls| :: taken[k] <= calls[k]
      ensures accepted == old(accepted) + Joined(taken)
      ensures old(handled) <= handled && handled + Greedy(Pending()) == Greedy(accepted)
      ensures old(Ring()) == [] && AllShort(calls) ==> taken == calls && Ring() == []
      ensures old(Ring()) == [] && AllShort(calls) && calls != [] ==> handled == Greedy(old(accepted) + Joined(calls))
    {
      hide StreamInvariant, Greedy, Joined, Leftover, RingOf, AllShort;
      ghost var start, first := accepted, handled;
      ghost var calm := Ring() == [] && AllShort(calls);
      taken := [];
      JoinedNone(start, taken);
      var k := 0;
      while k < |calls|
        invariant 0 <= k <= |calls| && Valid() && first <= handled && |taken| == k
        invariant forall j | 0 <= j < k :: taken[j] <= calls[j]
        invariant accepted == start + Joined(taken)
        invariant calm ==> Ring() == [] && taken == calls[..k] && (k > 0 ==> handled == Greedy(accepted))
      {
        ghost var was := taken;
        ghost var c := ReceiveBuf(calls[k]);
        taken := taken + [calls[k][..c]];
        assert taken[..k] == was && taken[..k + 1] == taken;
        JoinedNext(start, taken, k);
        ShortAt(calls, k);
        assert calm ==> calls[k][..c] == calls[k];
        k := k + 1;
      }
      assert calls[..k] == calls;
      PendingMeansMore(accepted, handled, Pending());
    }
  }
}
