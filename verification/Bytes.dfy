/** Bytes and little-endian numbers. */
module Bytes {
  type Byte = b: int | 0 <= b < 256

  const PAGE_SIZE := 4096

  /** The bytes of one page. */
  type PageBuf = b: seq<Byte> | |b| == PAGE_SIZE witness seq(PAGE_SIZE, i => 0)

  /** Every page starts with its log sequence number, its logical id and its type. */
  const PAGE_ID_AT := 8
  const PAGE_TYPE_AT := 12
  const UBER_HEADER_SIZE := 16

  function Pow256(n: nat): (p: int)
    ensures p >= 1
  {
    if n == 0 then 1 else 256 * Pow256(n - 1)
  }

  /** The low `n` bytes of `x`, least significant first. */
  function ToLE(n: nat, x: nat): (s: seq<Byte>)
    ensures |s| == n
  {
    if n == 0 then [] else [x % 256] + ToLE(n - 1, x / 256)
  }

  function FromLE(s: seq<Byte>): nat {
    if s == [] then 0 else s[0] + 256 * FromLE(s[1..])
  }

  /** Writing a number that fits and reading it back returns it. */
  lemma {:induction false} LERoundTrip(n: nat, x: nat)
    requires x < Pow256(n)
    ensures FromLE(ToLE(n, x)) == x
  {
    if n > 0 {
      assert ToLE(n, x)[1..] == ToLE(n - 1, x / 256);
      LERoundTrip(n - 1, x / 256);
    }
  }

  /** Reading bytes and writing them back restores them: the two representations are one to one. */
  lemma {:induction false} ToLEFromLE(s: seq<Byte>)
    ensures ToLE(|s|, FromLE(s)) == s
  {
    if s != [] {
      ToLEFromLE(s[1..]);
      var x := FromLE(s[1..]);
      assert (s[0] + 256 * x) % 256 == s[0] && (s[0] + 256 * x) / 256 == x;
      assert s == [s[0]] + s[1..];
    }
  }

  lemma FromLEPair(s: seq<Byte>)
    requires |s| == 2
    ensures FromLE(s) == s[0] as int + 256 * (s[1] as int)
  {
    assert s[1..][1..] == [];
    assert FromLE(s[1..]) == s[1..][0] as int + 256 * FromLE(s[1..][1..]) == s[1];
  }

  lemma {:induction false} FromLEConcat(a: seq<Byte>, b: seq<Byte>)
    ensures FromLE(a + b) == FromLE(a) + Pow256(|a|) * FromLE(b)
  {
    if a == [] {
      assert a + b == b;
    } else {
      assert (a + b)[1..] == a[1..] + b;
      FromLEConcat(a[1..], b);
      FromLEShift(a, b);
    }
  }

  lemma FromLEShift(a: seq<Byte>, b: seq<Byte>)
    requires a != []
    ensures 256 * (Pow256(|a| - 1) * FromLE(b)) == Pow256(|a|) * FromLE(b)
  {
    var p, x := Pow256(|a| - 1), FromLE(b);
    assert Pow256(|a|) == 256 * p;
    Associates(p, x);
  }

  lemma Associates(p: int, x: int)
    ensures 256 * (p * x) == (256 * p) * x
  {
  }

  /** Each byte counts 256 times the one before it. */
  lemma {:induction false} LittleEndian(s: seq<Byte>, i: nat, b: Byte)
    requires i < |s|
    ensures FromLE(s[i := b]) - FromLE(s) == (b as int - s[i] as int) * Pow256(i)
  {
    if i > 0 {
      assert s[i := b][1..] == s[1..][i - 1 := b];
      LittleEndian(s[1..], i - 1, b);
      Associates(Pow256(i - 1), b as int - s[i] as int);
      assert (b as int - s[i] as int) * Pow256(i) == Pow256(i) * (b as int - s[i] as int);
    } else {
      assert s[0 := b][1..] == s[1..];
    }
  }

  lemma {:induction false} FromLEBound(s: seq<Byte>)
    ensures FromLE(s) < Pow256(|s|)
  {
    if s != [] { FromLEBound(s[1..]); }
  }

  lemma Widths()
    ensures Pow256(1) == 0x100 && Pow256(2) == 0x1_0000 && Pow256(4) == 0x1_0000_0000 &&
      Pow256(8) == 0x1_0000_0000_0000_0000
  {
    assert Pow256(3) == 0x100_0000;
    assert Pow256(5) == 0x100_0000_0000;
    assert Pow256(6) == 0x1_0000_0000_0000;
    assert Pow256(7) == 0x100_0000_0000_0000;
  }

  /** Replace the bytes of `s` from `at` on by `bytes`. */
  function Splice(s: seq<Byte>, at: nat, bytes: seq<Byte>): (r: seq<Byte>)
    requires at + |bytes| <= |s|
    ensures |r| == |s|
  {
    s[..at] + bytes + s[at + |bytes|..]
  }

  /** What was spliced in is there; any stretch clear of it is as before. */
  lemma SpliceReads(s: seq<Byte>, at: nat, bytes: seq<Byte>, lo: nat, hi: nat)
    requires at + |bytes| <= |s| && lo <= hi <= |s|
    ensures Splice(s, at, bytes)[at..at + |bytes|] == bytes
    ensures hi <= at || at + |bytes| <= lo ==> Splice(s, at, bytes)[lo..hi] == s[lo..hi]
  {
    var r := Splice(s, at, bytes);
    assert forall i :: 0 <= i < |bytes| ==> r[at + i] == bytes[i];
    assert forall i :: 0 <= i < at ==> r[i] == s[i];
    assert forall i :: at + |bytes| <= i < |s| ==> r[i] == s[i];
  }

  /** A piece of two equal stretches is equal. */
  lemma Piece(b: seq<Byte>, lo: nat, r: seq<Byte>, at: nat, length: nat, from: nat, to: nat)
    requires lo + length <= |b| && at + length <= |r| && r[at..at + length] == b[lo..lo + length] &&
      from <= to <= length
    ensures r[at + from..at + to] == b[lo + from..lo + to]
  {
    forall k {:trigger r[k]} | at + from <= k < at + to
      ensures r[k] == b[k - at + lo]
    {
      assert r[at..at + length][k - at] == b[lo..lo + length][k - at];
    }
  }

  // ---------------------------------------------------------------- fixed-width fields

  function Num16(b: seq<Byte>, at: nat): (x: nat)
    requires at + 2 <= |b|
    ensures x < 0x1_0000
  {
    (b[at] as int) + 0x100 * (b[at + 1] as int)
  }

  function Num32(b: seq<Byte>, at: nat): (x: nat)
    requires at + 4 <= |b|
    ensures x < 0x1_0000_0000
  {
    Num16(b, at) + 0x1_0000 * Num16(b, at + 2)
  }

  function Num64(b: seq<Byte>, at: nat): (x: nat)
    requires at + 8 <= |b|
    ensures x < 0x1_0000_0000_0000_0000
  {
    Num32(b, at) + 0x1_0000_0000 * Num32(b, at + 4)
  }

  /** The fixed-width fields are little-endian numbers. */
  lemma NumsAreLE(b: seq<Byte>, at: nat)
    ensures at + 2 <= |b| ==> Num16(b, at) == FromLE(b[at..at + 2])
    ensures at + 4 <= |b| ==> Num32(b, at) == FromLE(b[at..at + 4])
    ensures at + 8 <= |b| ==> Num64(b, at) == FromLE(b[at..at + 8])
  {
    Widths();
    if at + 2 <= |b| { FromLEPair(b[at..at + 2]); }
    if at + 4 <= |b| { FourIsLE(b, at); }
    if at + 8 <= |b| {
      FourIsLE(b, at);
      FourIsLE(b, at + 4);
      FromLEConcat(b[at..at + 4], b[at + 4..at + 8]);
      assert b[at..at + 8] == b[at..at + 4] + b[at + 4..at + 8];
    }
  }

  lemma FourIsLE(b: seq<Byte>, at: nat)
    requires at + 4 <= |b|
    ensures Num32(b, at) == FromLE(b[at..at + 4])
  {
    Widths();
    FromLEPair(b[at..at + 2]);
    FromLEPair(b[at + 2..at + 4]);
    FromLEConcat(b[at..at + 2], b[at + 2..at + 4]);
    assert b[at..at + 4] == b[at..at + 2] + b[at + 2..at + 4];
  }

  // ---------------------------------------------------------------- reading and writing a buffer

  /** Outside the given stretch the two buffers agree. */
  ghost predicate SameOutside(b: seq<Byte>, r: seq<Byte>, lo: nat, hi: nat) {
    |r| == |b| && forall k {:trigger r[k]} :: 0 <= k < |b| && !(lo <= k < hi) ==> r[k] == b[k]
  }

  method Read16(a: array<Byte>, at: nat) returns (x: nat)
    requires at + 2 <= a.Length
    ensures x == Num16(a[..], at)
  {
    x := (a[at] as int) + 0x100 * (a[at + 1] as int);
  }

  method Read32(a: array<Byte>, at: nat) returns (x: nat)
    requires at + 4 <= a.Length
    ensures x == Num32(a[..], at)
  {
    var low := Read16(a, at);
    var high := Read16(a, at + 2);
    x := low + 0x1_0000 * high;
  }

  method Read64(a: array<Byte>, at: nat) returns (x: nat)
    requires at + 8 <= a.Length
    ensures x == Num64(a[..], at)
  {
    var low := Read32(a, at);
    var high := Read32(a, at + 4);
    x := low + 0x1_0000_0000 * high;
  }

  method Write16(a: array<Byte>, at: nat, x: nat)
    requires at + 2 <= a.Length && x < 0x1_0000
    modifies a
    ensures Num16(a[..], at) == x && SameOutside(old(a[..]), a[..], at, at + 2)
  {
    a[at], a[at + 1] := x % 0x100, x / 0x100;
  }

  method Write32(a: array<Byte>, at: nat, x: nat)
    requires at + 4 <= a.Length && x < 0x1_0000_0000
    modifies a
    ensures Num32(a[..], at) == x && SameOutside(old(a[..]), a[..], at, at + 4)
  {
    Write16(a, at, x % 0x1_0000);
    ghost var b := a[..];
    Write16(a, at + 2, x / 0x1_0000);
    assert a[..][at] == b[at] && a[..][at + 1] == b[at + 1];
  }

  method Write64(a: array<Byte>, at: nat, x: nat)
    requires at + 8 <= a.Length && x < 0x1_0000_0000_0000_0000
    modifies a
    ensures Num64(a[..], at) == x && SameOutside(old(a[..]), a[..], at, at + 8)
  {
    Write32(a, at, x % 0x1_0000_0000);
    ghost var b := a[..];
    Write32(a, at + 4, x / 0x1_0000_0000);
    assert forall k :: at <= k < at + 4 ==> a[..][k] == b[k];
  }

  method Write(a: array<Byte>, at: nat, bytes: seq<Byte>)
    requires at + |bytes| <= a.Length
    modifies a
    ensures a[at..at + |bytes|] == bytes && SameOutside(old(a[..]), a[..], at, at + |bytes|)
  {
    forall i | 0 <= i < |bytes| { a[at + i] := bytes[i]; }
  }

  /** Move a stretch of the buffer; source and destination may overlap. */
  method CopyWithin(a: array<Byte>, src: nat, count: nat, dst: nat)
    requires src + count <= a.Length && dst + count <= a.Length
    modifies a
    ensures SameOutside(old(a[..]), a[..], dst, dst + count)
    ensures a[dst..dst + count] == old(a[src..src + count])
  {
    forall i | 0 <= i < count { a[dst + i] := a[src + i]; }
  }
}
