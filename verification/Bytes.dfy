/** Byte buffers with the little-endian loads and stores that the engine performs through casted
    pointers. */
module Bytes {
  import opened Words

  type Byte = b: int | 0 <= b < 256
  type Half = h: int | 0 <= h < 0x1_0000

  /** `JERRY_ALIGNUP (n, JMEM_ALIGNMENT)`. */
  function AlignUp8(n: nat): (r: nat)
    ensures r % 8 == 0 && n <= r < n + 8
  {
    (n + 7) / 8 * 8
  }

  function Join2(b0: int, b1: int): int {
    b0 + 0x100 * b1
  }

  function Join4(b0: int, b1: int, b2: int, b3: int): int {
    b0 + 0x100 * b1 + 0x1_0000 * b2 + 0x100_0000 * b3
  }

  function Get16(s: seq<Byte>, p: nat): Half
    requires p + 2 <= |s|
  {
    Join2(s[p], s[p + 1])
  }

  function Get32(s: seq<Byte>, p: nat): Word
    requires p + 4 <= |s|
  {
    Join4(s[p], s[p + 1], s[p + 2], s[p + 3])
  }

  function Put16(s: seq<Byte>, p: nat, h: Half): (r: seq<Byte>)
    requires p + 2 <= |s|
    ensures |r| == |s|
  {
    s[p := h % 0x100][p + 1 := h / 0x100]
  }

  function Put32(s: seq<Byte>, p: nat, w: Word): (r: seq<Byte>)
    requires p + 4 <= |s|
    ensures |r| == |s|
  {
    s[p := w % 0x100][p + 1 := w / 0x100 % 0x100][p + 2 := w / 0x1_0000 % 0x100][p + 3 := w / 0x100_0000]
  }

  lemma GetPut16(s: seq<Byte>, p: nat, h: Half)
    requires p + 2 <= |s|
    ensures Get16(Put16(s, p, h), p) == h
    ensures forall k | 0 <= k < |s| && !(p <= k < p + 2) :: Put16(s, p, h)[k] == s[k]
  {
  }

  /** The four bytes of a word join to the word. */
  lemma WordBytes(w: Word)
    ensures Join4(w % 0x100, w / 0x100 % 0x100, w / 0x1_0000 % 0x100, w / 0x100_0000) == w
  {
    var q1 := w / 0x100;
    var q2 := q1 / 0x100;
    ModUnique(w, 0x1_0000, q2, q1 % 0x100 * 0x100 + w % 0x100);
    ModUnique(w, 0x100_0000, q2 / 0x100, q2 % 0x100 * 0x1_0000 + q1 % 0x100 * 0x100 + w % 0x100);
  }

  lemma GetPut32(s: seq<Byte>, p: nat, w: Word)
    requires p + 4 <= |s|
    ensures Get32(Put32(s, p, w), p) == w
    ensures forall k | 0 <= k < |s| && !(p <= k < p + 4) :: Put32(s, p, w)[k] == s[k]
  {
    WordBytes(w);
  }

  /** Equal bytes give equal loads. */
  lemma SameGet(s: seq<Byte>, p: nat, t: seq<Byte>, q: nat, n: nat)
    requires p + n <= |s| && q + n <= |t| && s[p..p + n] == t[q..q + n]
    ensures n >= 2 ==> Get16(s, p) == Get16(t, q)
    ensures n >= 4 ==> Get32(s, p) == Get32(t, q)
  {
    if n >= 2 {
      assert s[p..p + n][0] == t[q..q + n][0] && s[p..p + n][1] == t[q..q + n][1];
    }
    if n >= 4 {
      assert s[p..p + n][2] == t[q..q + n][2] && s[p..p + n][3] == t[q..q + n][3];
    }
  }

  /** The two buffers hold the same bytes from position a up to b. */
  predicate Agree(s: seq<Byte>, t: seq<Byte>, a: nat, b: nat) {
    |s| == |t| && b <= |s| && forall k | a <= k < b :: t[k] == s[k]
  }

  lemma AgreeThen(s: seq<Byte>, t: seq<Byte>, u: seq<Byte>, a: nat, b: nat, c: nat, d: nat)
    requires Agree(s, t, a, b) && Agree(t, u, c, d)
    ensures forall m: nat, n: nat | a <= m && c <= m && n <= b && n <= d :: Agree(s, u, m, n)
  {
  }

  lemma AgreePart(s: seq<Byte>, t: seq<Byte>, a: nat, b: nat, c: nat, d: nat)
    requires Agree(s, t, a, b) && a <= c && d <= b
    ensures Agree(s, t, c, d)
  {
  }

  lemma AgreeSlice(s: seq<Byte>, t: seq<Byte>, a: nat, b: nat)
    requires Agree(s, t, a, b) && a <= b
    ensures t[a..b] == s[a..b]
  {
  }

  lemma SliceOfSlice(t: seq<Byte>, a: nat, b: nat, c: nat, d: nat)
    requires a <= b <= |t| && c <= d <= b - a
    ensures t[a..b][c..d] == t[a + c..a + d]
  {
    var u, v := t[a..b][c..d], t[a + c..a + d];
    assert forall k | 0 <= k < d - c :: u[k] == t[a..b][c + k] == t[a + c + k] == v[k];
  }

  lemma PutAgrees(s: seq<Byte>, p: nat, w: Word)
    requires p + 4 <= |s|
    ensures Agree(s, Put32(s, p, w), 0, p) && Agree(s, Put32(s, p, w), p + 4, |s|)
  {
  }

  lemma SpliceAgrees(s: seq<Byte>, p: nat, data: seq<Byte>)
    requires p + |data| <= |s|
    ensures Agree(s, Splice(s, p, data), 0, p) && Agree(s, Splice(s, p, data), p + |data|, |s|)
    ensures forall k: nat | k < |data| :: Splice(s, p, data)[p + k] == data[k]
  {
    var t := Splice(s, p, data);
    forall k: nat | k < |data|
      ensures t[p + k] == data[k]
    {
      assert t[p..p + |data|][k] == data[k];
    }
  }

  /** `memcpy` of data into a buffer. */
  function Splice(s: seq<Byte>, p: nat, data: seq<Byte>): (r: seq<Byte>)
    requires p + |data| <= |s|
    ensures |r| == |s|
    ensures r[..p] == s[..p] && r[p..p + |data|] == data && r[p + |data|..] == s[p + |data|..]
  {
    s[..p] + data + s[p + |data|..]
  }

  method Store16(a: array<Byte>, p: nat, h: Half)
    requires p + 2 <= a.Length
    modifies a
    ensures a[..] == Put16(old(a[..]), p, h)
  {
    a[p] := h % 0x100;
    a[p + 1] := h / 0x100;
  }

  method Store32(a: array<Byte>, p: nat, w: Word)
    requires p + 4 <= a.Length
    modifies a
    ensures a[..] == Put32(old(a[..]), p, w)
  {
    a[p] := w % 0x100;
    a[p + 1] := w / 0x100 % 0x100;
    a[p + 2] := w / 0x1_0000 % 0x100;
    a[p + 3] := w / 0x100_0000;
  }

  method Load32(a: array<Byte>, p: nat) returns (w: Word)
    requires p + 4 <= a.Length
    ensures w == Get32(a[..], p)
  {
    w := Join4(a[p], a[p + 1], a[p + 2], a[p + 3]);
  }

  method Load16(a: array<Byte>, p: nat) returns (h: Half)
    requires p + 2 <= a.Length
    ensures h == Get16(a[..], p)
  {
    h := Join2(a[p], a[p + 1]);
  }

  /** `memcpy`. */
  method CopyInto(a: array<Byte>, p: nat, data: seq<Byte>)
    requires p + |data| <= a.Length
    modifies a
    ensures a[..] == Splice(old(a[..]), p, data)
  {
    for i := 0 to |data|
      invariant forall k | 0 <= k < a.Length ::
        a[k] == if p <= k < p + i then data[k - p] else old(a[k])
    {
      a[p + i] := data[i];
    }
  }

  function Smaller(a: int, b: int): int {
    if a < b then a else b
  }

  /** Pieces of data, one behind the other. */
  function Joined(payloads: seq<seq<Byte>>): seq<Byte> {
    if payloads == [] then [] else Joined(payloads[..|payloads| - 1]) + payloads[|payloads| - 1]
  }

  lemma NothingJoined()
    ensures Joined([]) == []
  {
  }

  lemma {:induction false} JoinedMore(payloads: seq<seq<Byte>>, p: seq<Byte>)
    ensures Joined(payloads + [p]) == Joined(payloads) + p
  {
    assert (payloads + [p])[..|payloads|] == payloads;
  }
}
