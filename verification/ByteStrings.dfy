/** Bytes, C strings and little-endian integers. */
module ByteStrings {

  type Byte = b: int | 0 <= b < 256

  type Bytes = seq<Byte>

  const MAX32 := 0xffff_ffff
  const MAX64 := 0xffff_ffff_ffff_ffff

  // ----- little-endian integers

  /** The n low bytes of v, lowest first. */
  function Le(v: nat, n: nat): (r: Bytes)
    ensures |r| == n
  {
    if n == 0 then [] else [v % 256] + Le(v / 256, n - 1)
  }

  function Value(s: Bytes): nat {
    if s == [] then 0 else s[0] + 256 * Value(s[1..])
  }

  function Power256(n: nat): (r: nat)
    ensures r > 0
  {
    if n == 0 then 1 else 256 * Power256(n - 1)
  }

  lemma {:induction false} ValueOfLe(v: nat, n: nat)
    requires v < Power256(n)
    ensures Value(Le(v, n)) == v
    decreases n
  {
    if n > 0 {
      ValueOfLe(v / 256, n - 1);
      assert Le(v, n)[1..] == Le(v / 256, n - 1);
    }
  }

  lemma {:induction false} ValueBound(s: Bytes)
    ensures Value(s) < Power256(|s|)
    decreases |s|
  {
    if s != [] {
      ValueBound(s[1..]);
    }
  }

  lemma ValueOfLe32(v: nat)
    requires v <= MAX32
    ensures Value(Le(v, 4)) == v
  {
    assert Power256(4) == 0x1_0000_0000 by {
      assert Power256(1) == 256 && Power256(2) == 0x1_0000 && Power256(3) == 0x100_0000;
    }
    ValueOfLe(v, 4);
  }

  lemma ValueOfLe64(v: nat)
    requires v <= MAX64
    ensures Value(Le(v, 8)) == v
  {
    PowerOf8();
    ValueOfLe(v, 8);
  }

  lemma PowerOf8()
    ensures Power256(8) == 0x1_0000_0000_0000_0000
    ensures Power256(4) == 0x1_0000_0000
  {
    assert Power256(1) == 256 && Power256(2) == 0x1_0000 && Power256(3) == 0x100_0000;
    assert Power256(5) == 0x100_0000_0000 && Power256(6) == 0x1_0000_0000_0000;
    assert Power256(7) == 0x100_0000_0000_0000;
  }

  /** v >> 8 * i */
  function ShiftBytes(v: nat, i: nat): nat
    decreases i
  {
    if i == 0 then v else ShiftBytes(v / 256, i - 1)
  }

  lemma {:induction false} LeAt(v: nat, n: nat, i: nat)
    requires i < n
    ensures Le(v, n)[i] == ShiftBytes(v, i) % 256
    decreases n
  {
    if i > 0 {
      LeAt(v / 256, n - 1, i - 1);
    }
  }

  /** Bit k of a number. */
  ghost predicate Bit(v: nat, k: nat) {
    if k == 0 then v % 2 == 1 else Bit(v / 2, k - 1)
  }

  /** The bytes of a number are determined by it. */
  lemma {:induction false} LeOfValue(s: Bytes)
    ensures Le(Value(s), |s|) == s
    decreases |s|
  {
    if s != [] {
      LeOfValue(s[1..]);
      assert Value(s) % 256 == s[0] && Value(s) / 256 == Value(s[1..]);
    }
  }

  /** Writing bytes into a buffer. */
  function Splice(s: Bytes, at: nat, b: Bytes): (r: Bytes)
    requires at + |b| <= |s|
    ensures |r| == |s|
    ensures r[at..at + |b|] == b
    ensures forall p {:trigger r[p]} | 0 <= p < |s| && !(at <= p < at + |b|) :: r[p] == s[p]
  {
    s[..at] + b + s[at + |b|..]
  }

  lemma SliceKept(s: Bytes, r: Bytes, lo: nat, hi: nat)
    requires |r| == |s| && lo <= hi <= |s| && forall p | lo <= p < hi :: r[p] == s[p]
    ensures r[lo..hi] == s[lo..hi]
  {
  }

  /** put_u32 and put_u64. */
  method Put(output: array<Byte>, at: nat, value: nat, size: nat)
    requires at + size <= output.Length
    modifies output
    ensures output[..] == Splice(old(output[..]), at, Le(value, size))
  {
    var byte := 0;
    while byte != size
      invariant 0 <= byte <= size
      invariant forall p | 0 <= p < output.Length && !(at <= p < at + byte) :: output[p] == old(output[p])
      invariant forall i | 0 <= i < byte :: output[at + i] == Le(value, size)[i]
    {
      LeAt(value, size, byte);
      output[at + byte] := ShiftBytes(value, byte) % 256;
      byte := byte + 1;
    }
    assert output[..] == Splice(old(output[..]), at, Le(value, size)) by {
      var s := Splice(old(output[..]), at, Le(value, size));
      forall p | 0 <= p < output.Length
        ensures output[p] == s[p]
      {
        if at <= p < at + size {
          assert s[at..at + size][p - at] == Le(value, size)[p - at];
          assert output[at + (p - at)] == Le(value, size)[p - at];
        }
      }
    }
  }

  /** get_u32 and get_u64: accumulate from the highest byte down. */
  method Get(input: Bytes, size: nat) returns (value: nat)
    requires size <= |input|
    ensures value == Value(input[..size])
  {
    value := 0;
    var byte := size;
    while byte > 0
      invariant 0 <= byte <= size
      invariant value == Value(input[byte..size])
    {
      byte := byte - 1;
      assert input[byte..size][1..] == input[byte + 1..size];
      value := value * 256 + input[byte];
    }
  }

  // ----- C strings

  /** No NUL inside: the contents of a C string. */
  ghost predicate Text(s: Bytes) {
    forall i | 0 <= i < |s| :: s[i] != 0
  }

  /** A NUL-terminated s stands at offset at of the string table. */
  ghost predicate StringAt(table: Bytes, at: nat, s: Bytes) {
    && at + |s| < |table| && Text(s)
    && table[at..at + |s|] == s && table[at + |s|] == 0
  }

  /** The bytes from an offset up to the first NUL. */
  function CString(table: Bytes, at: nat): Bytes
    requires at <= |table|
    decreases |table| - at
  {
    if at == |table| || table[at] == 0 then [] else [table[at]] + CString(table, at + 1)
  }

  lemma {:induction false} CStringIs(table: Bytes, at: nat, s: Bytes)
    requires StringAt(table, at, s)
    ensures CString(table, at) == s
    decreases |s|
  {
    if s != [] {
      assert table[at] == table[at..at + |s|][0];
      assert table[at + 1..at + |s|] == table[at..at + |s|][1..];
      CStringIs(table, at + 1, s[1..]);
    }
  }

  lemma CStringEmpty(table: Bytes, at: nat)
    requires at < |table|
    ensures CString(table, at) == [] <==> table[at] == 0
  {
  }

  /** memchr(..., 0, ...) finds a terminator. */
  ghost predicate Terminated(table: Bytes, at: nat) {
    exists i :: at <= i < |table| && table[i] == 0
  }

  lemma {:induction false} TerminatedString(table: Bytes, at: nat)
    requires at <= |table| && Terminated(table, at)
    ensures StringAt(table, at, CString(table, at))
    decreases |table| - at
  {
    if table[at] != 0 {
      TerminatedString(table, at + 1);
      var s, t := CString(table, at), CString(table, at + 1);
      assert table[at..at + |s|] == [table[at]] + table[at + 1..at + 1 + |t|];
    }
  }

  lemma StringGrows(table: Bytes, more: Bytes, at: nat, s: Bytes)
    requires StringAt(table, at, s)
    ensures StringAt(table + more, at, s)
  {
    assert (table + more)[at..at + |s|] == table[at..at + |s|];
  }

  lemma StringAppended(table: Bytes, s: Bytes)
    requires Text(s)
    ensures StringAt(table + s + [0], |table|, s)
  {
    assert (table + s + [0])[|table|..|table| + |s|] == s;
  }

  /** strcmp on the contents of two C strings: negative, zero or positive. */
  function Compare(a: seq<int>, b: seq<int>): int
  {
    if a == [] then (if b == [] then 0 else -1)
    else if b == [] then 1
    else if a[0] != b[0] then (if a[0] < b[0] then -1 else 1)
    else Compare(a[1..], b[1..])
  }

  /** The first difference decides, and a text comes before those it begins. */
  ghost predicate Earlier(a: seq<int>, b: seq<int>) {
    exists k :: 0 <= k < |b| && DiffersAt(a, b, k)
  }

  ghost predicate DiffersAt(a: seq<int>, b: seq<int>, k: nat)
    requires k < |b|
  {
    k <= |a| && a[..k] == b[..k] && (k < |a| ==> a[k] < b[k])
  }

  /** strcmp is negative exactly then. */
  lemma {:induction false} CompareIs(a: seq<int>, b: seq<int>)
    ensures Compare(a, b) < 0 <==> Earlier(a, b)
    decreases |a|
  {
    if a == [] {
      assert b != [] ==> DiffersAt(a, b, 0);
    } else if b != [] {
      if a[0] == b[0] {
        CompareIs(a[1..], b[1..]);
        EarlierTail(a, b);
      } else if a[0] < b[0] {
        assert DiffersAt(a, b, 0);
      } else {
        NotEarlier(a, b);
      }
    }
  }

  lemma NotEarlier(a: seq<int>, b: seq<int>)
    requires a != [] && b != [] && a[0] > b[0]
    ensures !Earlier(a, b)
  {
    forall k | 0 <= k < |b|
      ensures !DiffersAt(a, b, k)
    {
      assert 0 < k <= |a| ==> a[..k][0] == a[0] && b[..k][0] == b[0];
    }
  }

  lemma EarlierTail(a: seq<int>, b: seq<int>)
    requires a != [] && b != [] && a[0] == b[0]
    ensures Earlier(a, b) <==> Earlier(a[1..], b[1..])
  {
    var s, t := a[1..], b[1..];
    forall k: nat | k < |t|
      ensures DiffersAt(a, b, k + 1) <==> DiffersAt(s, t, k)
    {
      if k <= |s| {
        assert a[..k + 1] == [a[0]] + s[..k] && b[..k + 1] == [b[0]] + t[..k];
        assert a[..k + 1][1..] == s[..k] && b[..k + 1][1..] == t[..k];
      }
    }
    if k: nat :| k < |b| && DiffersAt(a, b, k) {
      assert k > 0;
      assert DiffersAt(s, t, k - 1);
    }
    if k: nat :| k < |t| && DiffersAt(s, t, k) {
      assert DiffersAt(a, b, k + 1);
    }
  }

  lemma {:induction false} CompareEqual(a: seq<int>, b: seq<int>)
    ensures Compare(a, b) == 0 <==> a == b
    decreases |a|
  {
    if a != [] && b != [] {
      CompareEqual(a[1..], b[1..]);
      assert a == [a[0]] + a[1..] && b == [b[0]] + b[1..];
    }
  }

  lemma {:induction false} CompareAntisymmetric(a: seq<int>, b: seq<int>)
    ensures Compare(a, b) == -Compare(b, a)
    decreases |a|
  {
    if a != [] && b != [] {
      CompareAntisymmetric(a[1..], b[1..]);
    }
  }

  lemma {:induction false} CompareTransitive(a: seq<int>, b: seq<int>, c: seq<int>)
    requires Compare(a, b) <= 0 && Compare(b, c) <= 0
    ensures Compare(a, c) <= 0
    ensures Compare(a, b) < 0 || Compare(b, c) < 0 ==> Compare(a, c) < 0
    decreases |a|
  {
    if a != [] && b != [] && c != [] {
      if a[0] == b[0] && b[0] == c[0] {
        CompareTransitive(a[1..], b[1..], c[1..]);
      }
    }
  }

  lemma CompareUnfold(a: Bytes, i: nat, b: Bytes, j: nat)
    requires i < |a| && j < |b| && a[i] != 0 && a[i] == b[j]
    ensures Compare(CString(a, i), CString(b, j)) == Compare(CString(a, i + 1), CString(b, j + 1))
  {
    assert CString(a, i)[1..] == CString(a, i + 1);
    assert CString(b, j)[1..] == CString(b, j + 1);
  }

  /** strcmp on two terminated strings. */
  method StrCmp(a: Bytes, at: nat, b: Bytes, bt: nat) returns (order: int)
    requires Terminated(a, at) && Terminated(b, bt)
    ensures order == Compare(CString(a, at), CString(b, bt))
  {
    var i, j := at, bt;
    while a[i] == b[j] && a[i] != 0
      invariant 0 <= i < |a| && 0 <= j < |b| && Terminated(a, i) && Terminated(b, j)
      invariant Compare(CString(a, at), CString(b, bt)) == Compare(CString(a, i), CString(b, j))
      decreases |a| - i
    {
      CompareUnfold(a, i, b, j);
      i, j := i + 1, j + 1;
    }
    order := if a[i] == b[j] then 0 else if a[i] < b[j] then -1 else 1;
  }
}
