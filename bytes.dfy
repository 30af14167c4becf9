/** Byte strings as the C++ sources handle them: a std::string, a
    std::vector<uint8_t> and an unsigned char buffer are all sequences of
    octets here, and text literals are written through Ascii. */
module Bytes {

  type byte = bv8

  datatype Option<+T> = None | Some(value: T)

  /** The octets of an ASCII text literal (no literal of the model has a
      character above 0x7F; anything above 0xFF would become 0). */
  function Ascii(s: string): (r: seq<byte>)
    ensures |r| == |s|
  {
    seq(|s|, i requires 0 <= i < |s| => if (s[i] as int) < 256 then (s[i] as int) as bv8 else 0)
  }

  /** An octet given by its numeric value. */
  function ByteOf(n: int): byte
    requires 0 <= n < 256
  {
    (n % 256) as bv8
  }

  lemma {:induction false} ByteOfValue(n: int)
    requires 0 <= n < 256
    ensures ByteOf(n) as int == n
  {
    assert n % 256 == n;
    ByteRoundTrip(n);
  }

  /** A value below 2^32 is its own remainder. */
  lemma {:induction false} Mod32Small(x: nat)
    requires x < 0x1_0000_0000
    ensures x % 0x1_0000_0000 == x
  {
  }

  /** Octet i of a text literal is its i-th character. */
  lemma {:induction false} AsciiAt(s: string, i: nat)
    requires i < |s| && s[i] as int < 256
    ensures Ascii(s)[i] == (s[i] as int) as bv8
  {
  }

  /** A character that a text literal of single-octet characters lacks is
      an octet its Ascii form lacks. */
  lemma {:induction false} AsciiLacks(s: string, c: char)
    requires c as int < 256 && c !in s
    requires forall d | d in s :: d as int < 256
    ensures ((c as int) as bv8) !in Ascii(s)
  {
    forall i | 0 <= i < |s|
      ensures Ascii(s)[i] != (c as int) as bv8
    {
      assert s[i] in s;
      AsciiAt(s, i);
      ByteDistinct(s[i] as int, c as int);
    }
  }

  /** Distinct values below 256 are distinct octets. */
  lemma {:induction false} ByteDistinct(x: int, y: int)
    requires 0 <= x < 256 && 0 <= y < 256 && x != y
    ensures x as bv8 != y as bv8
  {
    ByteRoundTrip(x);
    ByteRoundTrip(y);
  }

  lemma {:induction false} ByteRoundTrip(x: int)
    requires 0 <= x < 256
    ensures (x as bv8) as int == x
  {
    assert x % 256 == x;
  }

  /** `p` occurs in `s` at position k. */
  predicate OccursAt(s: seq<byte>, p: seq<byte>, k: nat)
  {
    k + |p| <= |s| && s[k..k + |p|] == p
  }

  /** std::string::find(p, from): the first position at or after `from` at
      which `p` occurs in `s`, or None for std::string::npos. */
  function Find(s: seq<byte>, p: seq<byte>, from: nat): (r: Option<nat>)
    decreases |s| - from
    ensures r.Some? ==> from <= r.value && OccursAt(s, p, r.value)
    ensures forall k | from <= k && (r.None? || k < r.value) :: !OccursAt(s, p, k)
  {
    if from + |p| > |s| then None
    else if s[from..from + |p|] == p then Some(from)
    else Find(s, p, from + 1)
  }

  predicate Contains(s: seq<byte>, p: seq<byte>)
  {
    Find(s, p, 0).Some?
  }

  lemma {:induction false} ContainsAt(s: seq<byte>, p: seq<byte>, k: nat)
    requires OccursAt(s, p, k)
    ensures Contains(s, p)
  {
  }

  /** A pattern cannot occur in a text that lacks its i-th symbol at every
      position where that symbol could fall. */
  lemma {:induction false} NotContainsByPosition(s: seq<byte>, p: seq<byte>, i: nat)
    requires i < |p|
    requires forall j | i <= j < |s| :: s[j] != p[i]
    ensures !Contains(s, p)
  {
    forall k: nat | k + |p| <= |s|
      ensures !OccursAt(s, p, k)
    {
      assert s[k..k + |p|][i] == s[k + i];
    }
  }

  lemma {:induction false} OccursAtIndex(s: seq<byte>, p: seq<byte>, k: nat, i: nat)
    requires OccursAt(s, p, k) && i < |p|
    ensures s[k + i] == p[i]
  {
    assert s[k..k + |p|][i] == s[k + i];
  }

  /** A pattern whose first symbol differs from s[k] does not occur at k. */
  lemma {:induction false} OccursAtHead(s: seq<byte>, p: seq<byte>, k: nat)
    requires p != [] && k < |s| && s[k] != p[0]
    ensures !OccursAt(s, p, k)
  {
    if k + |p| <= |s| {
      assert s[k..k + |p|][0] == s[k];
    }
  }

  /** Find returns the first occurrence. */
  lemma {:induction false} FindIs(s: seq<byte>, p: seq<byte>, k: nat)
    requires OccursAt(s, p, k)
    requires forall j | 0 <= j < k :: !OccursAt(s, p, j)
    ensures Find(s, p, 0) == Some(k)
  {
  }

  /** Find from a later start returns the first occurrence from there. */
  lemma {:induction false} FindFrom(s: seq<byte>, p: seq<byte>, from: nat, k: nat)
    requires from <= k && OccursAt(s, p, k)
    requires forall j | from <= j < k :: !OccursAt(s, p, j)
    ensures Find(s, p, from) == Some(k)
    decreases k - from
  {
    if from < k {
      FindFrom(s, p, from + 1, k);
    }
  }

  /** Finding a single octet: the first position from `from` that holds it. */
  lemma {:induction false} FindOctet(s: seq<byte>, c: byte, from: nat, k: nat)
    requires from <= k < |s| && s[k] == c && c !in s[from..k]
    ensures Find(s, [c], from) == Some(k)
  {
    hide Find;
    forall j | from <= j < k
      ensures !OccursAt(s, [c], j)
    {
      assert s[j] == s[from..k][j - from];
      OccursAtHead(s, [c], j);
    }
    assert s[k..k + 1] == [c];
    FindFrom(s, [c], from, k);
  }

  /** A pattern whose first octet is missing from the text before it is
      found where it starts. */
  lemma {:induction false} FindAfterLacking(head: seq<byte>, p: seq<byte>, rest: seq<byte>)
    requires p != [] && p[0] !in head
    ensures Find(head + p + rest, p, 0) == Some(|head|)
  {
    hide Find;
    var s := head + p + rest;
    assert s[|head|..|head| + |p|] == p;
    forall j | 0 <= j < |head|
      ensures !OccursAt(s, p, j)
    {
      assert s[j] == head[j];
      OccursAtHead(s, p, j);
    }
    FindIs(s, p, |head|);
  }

  /** An octet `c` searched for right after a run that lacks it is found
      where it follows that run. */
  lemma {:induction false} FindOctetAfter(a: seq<byte>, run: seq<byte>, c: byte, b: seq<byte>)
    requires c !in run
    ensures Find(a + (run + ([c] + b)), [c], |a|) == Some(|a| + |run|)
    ensures (a + (run + ([c] + b)))[|a|..|a| + |run|] == run
  {
    hide Find;
    var s := a + (run + ([c] + b));
    assert s[|a|..] == run + ([c] + b);
    assert s[|a|..|a| + |run|] == s[|a|..][..|run|] == run;
    assert s[|a| + |run|] == s[|a|..][|run|] == c;
    FindOctet(s, c, |a|, |a| + |run|);
  }

  /** A pattern cannot occur in a text shorter than itself. */
  lemma {:induction false} NotContainsShorter(s: seq<byte>, p: seq<byte>)
    requires |s| < |p|
    ensures !Contains(s, p)
  {
  }

  /** std::string(buffer) on a NUL-terminated char buffer: the bytes before
      the first NUL. */
  function CString(s: seq<byte>): (r: seq<byte>)
    ensures r <= s
    ensures 0 !in r
    ensures |r| < |s| ==> s[|r|] == 0
  {
    match Find(s, [0], 0)
    case None =>
      assert forall k | 0 <= k < |s| :: !OccursAt(s, [0], k) ==> s[k] != 0;
      s
    case Some(n) =>
      assert forall k | 0 <= k < n :: !OccursAt(s, [0], k) ==> s[k] != 0;
      s[..n]
  }

  /** Four octets, most significant first, of a 32-bit unsigned value
      (htonl followed by a byte copy). */
  function BigEndian32(x: nat): (r: seq<byte>)
    requires x < 0x1_0000_0000
    ensures |r| == 4
  {
    [ByteOf(x / 0x100_0000), ByteOf(x / 0x1_0000 % 0x100), ByteOf(x / 0x100 % 0x100), ByteOf(x % 0x100)]
  }

  /** The value of four octets read most significant first (ntohl). */
  function ReadBigEndian32(b: seq<byte>): (x: nat)
    requires |b| == 4
    ensures x < 0x1_0000_0000
  {
    b[0] as int * 0x100_0000 + b[1] as int * 0x1_0000 + b[2] as int * 0x100 + b[3] as int
  }

  lemma {:induction false} BigEndian32RoundTrip(x: nat)
    requires x < 0x1_0000_0000
    ensures ReadBigEndian32(BigEndian32(x)) == x
  {
    var b := BigEndian32(x);
    var d0, d1, d2, d3 := x / 0x100_0000, x / 0x1_0000 % 0x100, x / 0x100 % 0x100, x % 0x100;
    ByteOfValue(d0);
    ByteOfValue(d1);
    ByteOfValue(d2);
    ByteOfValue(d3);
    assert b[0] as int == d0 && b[1] as int == d1 && b[2] as int == d2 && b[3] as int == d3;
    Decompose32(x);
  }

  lemma {:induction false} Decompose32(x: nat)
    requires x < 0x1_0000_0000
    ensures x == (x / 0x100_0000) * 0x100_0000 + (x / 0x1_0000 % 0x100) * 0x1_0000 + (x / 0x100 % 0x100) * 0x100 + x % 0x100
  {
    var q1 := x / 0x100;
    var q2 := q1 / 0x100;
    var q3 := q2 / 0x100;
    assert x == q1 * 0x100 + x % 0x100;
    assert q1 == q2 * 0x100 + q1 % 0x100;
    assert q2 == q3 * 0x100 + q2 % 0x100;
    assert x / 0x1_0000 == q2;
    assert x / 0x100_0000 == q3;
  }

  /** Octets 0 to 3 (from the least significant) of a 64-bit value are
      those of its low word. */
  lemma {:induction false} LowWordByte0(x: nat)
    ensures x % 0x100 == (x % 0x1_0000_0000) % 0x100
  {
    var q := x / 0x1_0000_0000;
    assert x == q * 0x1_0000_0000 + x % 0x1_0000_0000;
  }

  lemma {:induction false} LowWordByte1(x: nat)
    ensures x / 0x100 % 0x100 == (x % 0x1_0000_0000) / 0x100 % 0x100
  {
    var y := x / 0x100;
    assert y % 0x100_0000 == (x % 0x1_0000_0000) / 0x100;
    assert y % 0x100 == (y % 0x100_0000) % 0x100;
  }

  lemma {:induction false} LowWordByte2(x: nat)
    ensures x / 0x1_0000 % 0x100 == (x % 0x1_0000_0000) / 0x1_0000 % 0x100
  {
    var y := x / 0x1_0000;
    assert y % 0x1_0000 == (x % 0x1_0000_0000) / 0x1_0000;
    assert y % 0x100 == (y % 0x1_0000) % 0x100;
  }

  lemma {:induction false} LowWordByte3(x: nat)
    ensures x / 0x100_0000 % 0x100 == (x % 0x1_0000_0000) / 0x100_0000
  {
    var q, r := x / 0x1_0000_0000, x % 0x1_0000_0000;
    assert x / 0x100_0000 == q * 0x100 + r / 0x100_0000;
  }

  /** The four high octets of a 64-bit value are those of its high word. */
  lemma {:induction false} HighWordBytes(x: nat)
    requires x < 0x1_0000_0000_0000_0000
    ensures x / 0x1_0000_0000 % 0x100 == (x / 0x1_0000_0000) % 0x100
    ensures x / 0x100_0000_0000 % 0x100 == (x / 0x1_0000_0000) / 0x100 % 0x100
    ensures x / 0x1_0000_0000_0000 % 0x100 == (x / 0x1_0000_0000) / 0x1_0000 % 0x100
    ensures x / 0x100_0000_0000_0000 % 0x100 == (x / 0x1_0000_0000) / 0x100_0000
  {
  }
}
