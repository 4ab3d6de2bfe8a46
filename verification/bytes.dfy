/** Bytes, byte strings and the few conversions the C code performs on them. */
module Bytes {
  type byte = x: int | 0 <= x < 256

  datatype Option<+T> = None | Some(value: T)

  /** Conversion to uint8_t. */
  function Truncate(n: int): byte {
    n % 256
  }

  /** The plain (unbounded) sum of a byte string. */
  function Total(s: seq<byte>): nat {
    if s == [] then 0 else Total(s[..|s| - 1]) + s[|s| - 1]
  }

  /** Content of memory the code reads without having written it: position k of
      an arbitrary byte string. Quantifying over `junk` quantifies over every
      content such memory can have, since only finitely many bytes are read. */
  function Unspecified(junk: seq<byte>, k: nat): byte {
    if k < |junk| then junk[k] else 0
  }

  /** Byte k of a buffer, or unspecified memory past its end. */
  function At(data: seq<byte>, k: nat, junk: seq<byte>): byte {
    if k < |data| then data[k] else Unspecified(junk, k - |data|)
  }

  function Flatten(parts: seq<seq<byte>>): seq<byte> {
    if parts == [] then [] else parts[0] + Flatten(parts[1..])
  }

  lemma FlattenCons(part: seq<byte>, parts: seq<seq<byte>>)
    ensures Flatten([part] + parts) == part + Flatten(parts)
  {
    assert ([part] + parts)[1..] == parts;
  }

  lemma {:induction false} FlattenAppend(a: seq<seq<byte>>, b: seq<seq<byte>>)
    ensures Flatten(a + b) == Flatten(a) + Flatten(b)
  {
    if a == [] {
      assert a + b == b;
    } else {
      var part, rest := a[0], a[1..];
      FlattenAppend(rest, b);
      FlattenCons(part, rest + b);
      hide Flatten;
      assert a + b == [part] + (rest + b);
      assert part + (Flatten(rest) + Flatten(b)) == part + Flatten(rest) + Flatten(b);
    }
  }

  lemma {:induction false} TotalUpdate(s: seq<byte>, i: nat, v: byte)
    requires i < |s|
    ensures Total(s[i := v]) == Total(s) - s[i] + v
  {
    var t := s[i := v];
    if i == |s| - 1 {
      assert t[..|t| - 1] == s[..|s| - 1];
    } else {
      TotalUpdate(s[..|s| - 1], i, v);
      assert t[..|t| - 1] == s[..|s| - 1][i := v];
    }
  }

  lemma Subslice<T>(s: seq<T>, a: nat, b: nat, c: nat, d: nat)
    requires a <= b <= |s| && c <= d <= b - a
    ensures s[a..b][c..d] == s[a + c..a + d]
  {
    var inner, outer := s[a..b][c..d], s[a + c..a + d];
    forall k | 0 <= k < d - c
      ensures inner[k] == outer[k]
    {
      assert inner[k] == s[a..b][c + k] == s[a + c + k];
    }
  }

  /** Two bytes as the 16-bit number they spell in network order. */
  function Word(hi: byte, lo: byte): nat {
    hi * 256 + lo
  }

  function WordAt(s: seq<byte>, k: nat): nat
    requires k + 2 <= |s|
  {
    Word(s[k], s[k + 1])
  }

  function WordBytes(n: nat): (s: seq<byte>)
    requires n < 0x1_0000
    ensures |s| == 2 && Word(s[0], s[1]) == n
  {
    [n / 256, n % 256]
  }

  /** The C string at the start of a buffer. */
  function CString(s: seq<byte>): (t: seq<byte>)
    ensures |t| <= |s| && t == s[..|t|] && 0 !in t
    ensures |t| < |s| ==> s[|t|] == 0
  {
    if s == [] || s[0] == 0 then [] else [s[0]] + CString(s[1..])
  }

  lemma {:induction false} CStringEnds(s: seq<byte>, t: seq<byte>)
    requires 0 !in t && |t| < |s| && s[..|t|] == t && s[|t|] == 0
    ensures CString(s) == t
  {
    if t != [] {
      assert s[0] == t[0] && t[0] in t;
      assert s[1..][..|t| - 1] == t[1..];
      CStringEnds(s[1..], t[1..]);
      assert t == [t[0]] + t[1..];
    }
  }
}
