// The NUL-terminated strings of mp3/student-distrib/lib.c: strlen, strncmp, strrev.
module CStrings {
  import opened Bytes
  import opened Limits

  const NUL: Byte := 0

  /** The length of a string: up to its first NUL, or all of it. */
  function TextLength(s: seq<Byte>): (n: nat)
    ensures n <= |s|
    ensures forall k | 0 <= k < n :: s[k] != NUL
    ensures n < |s| ==> s[n] == NUL
  {
    if s == [] || s[0] == NUL then 0 else 1 + TextLength(s[1..])
  }

  lemma TextLengthIs(s: seq<Byte>, n: nat)
    requires n <= |s| && (forall k | 0 <= k < n :: s[k] != NUL) && (n < |s| ==> s[n] == NUL)
    ensures TextLength(s) == n
  {
  }

  /** strncmp over n bytes finds no difference before the end of the first string. */
  predicate AgreeUpTo(text: seq<Byte>, name: seq<Byte>, n: nat) {
    var m := Min(n, TextLength(text) + 1);
    m <= |text| && m <= |name| && text[..m] == name[..m]
  }

  /** The comparison stops inside both buffers: at the n-th byte, at a difference or at
      a NUL. */
  predicate Comparable(s1: seq<Byte>, s2: seq<Byte>, n: nat) {
    || (n <= |s1| && n <= |s2|)
    || exists i :: 0 <= i < |s1| && i < |s2| && (s1[i] != s2[i] || s1[i] == NUL)
  }

  /** Two texts with a NUL each can always be compared. */
  lemma TextsAreComparable(s1: seq<Byte>, s2: seq<Byte>, n: nat)
    requires NUL in s1 && (NUL in s2 || n <= |s2|)
    ensures Comparable(s1, s2, n)
  {
    var i := TextLength(s1);
    if i < |s2| {
      assert s1[i] != s2[i] || s1[i] == NUL;
    } else if NUL in s2 {
      var k :| 0 <= k < |s2| && s2[k] == NUL;
      assert s1[k] != s2[k];
    }
  }

  method Strlen(s: seq<Byte>) returns (n: nat)
    requires NUL in s
    ensures n < |s| && n == TextLength(s)
  {
    n := 0;
    while s[n] != NUL
      invariant n < |s| && forall k | 0 <= k < n :: s[k] != NUL
      invariant NUL in s[n..]
      decreases |s| - n
    {
      n := n + 1;
    }
    TextLengthIs(s, n);
  }

  function AsInt8(b: Byte): int {
    if b < 128 then b as int else b as int - 256
  }

  method Strncmp(s1: seq<Byte>, s2: seq<Byte>, n: nat) returns (r: int)
    requires Comparable(s1, s2, n)
    ensures r == 0 <==> AgreeUpTo(s1, s2, n)
  {
    ghost var m := Min(n, TextLength(s1) + 1);
    var i := 0;
    while i < n
      invariant 0 <= i <= n && i <= TextLength(s1) && i <= |s2| && s1[..i] == s2[..i]
    {
      assert i < |s1| && i < |s2| by {
        assert forall k | 0 <= k < i :: s1[k] == s1[..i][k] == s2[k];
      }
      if s1[i] != s2[i] || s1[i] == NUL {
        assert i < m;
        assert m <= |s1| && m <= |s2| && s1[i] != s2[i] ==> s1[..m][i] != s2[..m][i];
        return AsInt8(s1[i]) - AsInt8(s2[i]);
      }
      i := i + 1;
    }
    return 0;
  }

  // ----- strncpy -----

  /** The first n bytes of a text, filled up with NULs. */
  function Padded(text: seq<Byte>, n: nat): (r: seq<Byte>)
    ensures |r| == n
  {
    if |text| >= n then text[..n] else text + seq(n - |text|, _ => NUL)
  }

  /** s with `bytes` laid over it from position `at`. */
  function Stored(s: seq<Byte>, at: nat, bytes: seq<Byte>): (r: seq<Byte>)
    requires at + |bytes| <= |s|
    ensures |r| == |s|
  {
    s[..at] + bytes + s[at + |bytes|..]
  }

  lemma StoredOne(was: seq<Byte>, at: nat, bytes: seq<Byte>, v: Byte)
    requires at + |bytes| < |was|
    ensures |Stored(was, at, bytes)| == |was|
    ensures Stored(was, at, bytes)[at + |bytes| := v] == Stored(was, at, bytes + [v])
  {
  }

  lemma StoredNone(was: seq<Byte>, at: nat)
    requires at <= |was|
    ensures Stored(was, at, []) == was
  {
  }

  lemma PaddedNext(text: seq<Byte>, n: nat)
    ensures Padded(text, n + 1) == Padded(text, n) + [if n < |text| then text[n] else NUL]
  {
  }

  /** The first loop of strncpy: up to the NUL, but no more than n bytes. */
  method CopyText(dest: array<Byte>, at: nat, src: seq<Byte>, n: nat, ghost text: seq<Byte>) returns (i: nat)
    requires text < src && src[|text|] == NUL && (forall k | 0 <= k < |text| :: src[k] != NUL) && at + n <= dest.Length
    modifies dest
    ensures i <= n && (i < n ==> i >= |text|)
    ensures dest[..] == Stored(old(dest[..]), at, Padded(text, i))
  {
    ghost var was := dest[..];
    assert Padded(text, 0) == [];
    StoredNone(was, at);
    hide *;
    i := 0;
    while src[i] != NUL && i < n
      invariant 0 <= i <= n && i <= |text| && dest[..] == Stored(was, at, Padded(text, i))
      decreases n - i
    {
      PaddedNext(text, i);
      StoredOne(was, at, Padded(text, i), src[i]);
      dest[at + i] := src[i];
      i := i + 1;
    }
  }

  /** The second loop of strncpy: NULs up to n bytes. */
  method FillNul(dest: array<Byte>, at: nat, from: nat, n: nat, ghost text: seq<Byte>, ghost was: seq<Byte>)
    requires from <= n && (from < n ==> from >= |text|) && at + n <= dest.Length == |was|
    requires dest[..] == Stored(was, at, Padded(text, from))
    modifies dest
    ensures dest[..] == Stored(was, at, Padded(text, n))
  {
    hide *;
    var i := from;
    while i < n
      invariant from <= i <= n && dest[..] == Stored(was, at, Padded(text, i))
    {
      PaddedNext(text, i);
      StoredOne(was, at, Padded(text, i), NUL);
      dest[at + i] := NUL;
      i := i + 1;
    }
  }

  /** strncpy to position `at` of dest: exactly n bytes are written. */
  method Strncpy(dest: array<Byte>, at: nat, src: seq<Byte>, n: nat)
    requires NUL in src && at + n <= dest.Length
    modifies dest
    ensures dest[..] == Stored(old(dest[..]), at, Padded(src[..TextLength(src)], n))
  {
    ghost var text := src[..TextLength(src)];
    var i := CopyText(dest, at, src, n, text);
    FillNul(dest, at, i, n, text, old(dest[..]));
  }

  // ----- strrev -----

  function Reversed(s: seq<Byte>): (r: seq<Byte>)
    ensures |r| == |s|
  {
    if s == [] then [] else Reversed(s[1..]) + [s[0]]
  }

  lemma {:induction false} ReversedAt(s: seq<Byte>, k: nat)
    requires k < |s|
    ensures Reversed(s)[k] == s[|s| - 1 - k]
  {
    if |s| > 1 {
      ReversedAt(s[1..], if k < |s| - 1 then k else 0);
    }
  }

  /** The swap from both ends: everything outside beg..end has changed places. */
  ghost predicate Swapped(was: seq<Byte>, now: seq<Byte>, n: nat, beg: int, end: int) {
    && n <= |was| == |now|
    && (forall k | 0 <= k < n && (k < beg || end < k) :: now[k] == was[n - 1 - k])
    && (forall k | 0 <= k < |was| && (k >= n || beg <= k <= end) :: now[k] == was[k])
  }

  lemma SwappedAll(was: seq<Byte>, now: seq<Byte>, n: nat, beg: int, end: int)
    requires Swapped(was, now, n, beg, end) && 0 <= beg && beg + end == n - 1 && end <= beg
    ensures now == Reversed(was[..n]) + was[n..]
  {
    forall k | 0 <= k < n ensures now[k] == Reversed(was[..n])[k] {
      ReversedAt(was[..n], k);
    }
    assert now[..n] == Reversed(was[..n]) && now[n..] == was[n..];
  }

  lemma SwapOnce(was: seq<Byte>, now: seq<Byte>, n: nat, beg: int, end: int)
    requires Swapped(was, now, n, beg, end) && 0 <= beg < end && beg + end == n - 1
    ensures Swapped(was, now[end := now[beg]][beg := now[end]], n, beg + 1, end - 1)
  {
  }

  /** strrev: the text turned round in place, its NUL and what follows untouched. */
  method Strrev(s: array<Byte>)
    requires NUL in s[..]
    modifies s
    ensures s[..] == Reversed(old(s[..])[..TextLength(old(s[..]))]) + old(s[..])[TextLength(old(s[..]))..]
  {
    ghost var was := s[..];
    var n := Strlen(s[..]);
    assert Swapped(was, s[..], n, 0, n - 1) && n < s.Length;
    hide Swapped;
    var beg, end := 0, n - 1;
    while beg < end
      invariant 0 <= beg && beg + end == n - 1 && n < s.Length
      invariant Swapped(was, s[..], n, beg, end)
    {
      SwapOnce(was, s[..], n, beg, end);
      ghost var now := s[..];
      s[end], s[beg] := s[beg], s[end];
      assert s[..] == now[end := now[beg]][beg := now[end]];
      beg := beg + 1;
      end := end - 1;
    }
    SwappedAll(was, s[..], n, beg, end);
  }
}
