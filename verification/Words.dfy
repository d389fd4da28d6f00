/** Machine words: unsigned 32-bit values, bytes, little-endian encoding,
    bit maps stored in bytes, and the few byte-string helpers the kernel uses. */
module Words {

  const WORD_LIMIT: nat := 0x1_0000_0000

  type u32 = x: int | 0 <= x < 0x1_0000_0000

  type byte = x: int | 0 <= x < 0x100

  /** Addition of unsigned 32-bit values, with wrap-around. */
  function Add32(x: u32, y: u32): (r: u32) {
    (x + y) % 0x1_0000_0000
  }

  function Min(x: int, y: int): (r: int) {
    if x < y then x else y
  }

  // ---------------------------------------------------------------- bytes and words

  /** The little-endian value of four bytes. */
  function WordOf(t: seq<byte>): (r: u32)
    requires |t| == 4
  {
    (t[0] as int) + 0x100 * (t[1] as int) + 0x1_0000 * (t[2] as int) + 0x100_0000 * (t[3] as int)
  }

  /** The word stored at byte offset `o`. */
  function WordAt(s: seq<byte>, o: nat): (r: u32)
    requires o + 4 <= |s|
  {
    WordOf(s[o..o + 4])
  }

  function WordBytes(x: u32): (r: seq<byte>)
    ensures |r| == 4
  {
    [x % 0x100, x / 0x100 % 0x100, x / 0x100 / 0x100 % 0x100, x / 0x100 / 0x100 / 0x100]
  }

  /** The low byte comes first. */
  lemma LowByteFirst(a: byte, b: byte, c: byte, d: byte)
    ensures WordBytes(a + 0x100 * b + 0x1_0000 * c + 0x100_0000 * d) == [a, b, c, d]
    ensures WordOf([a, b, c, d]) == a + 0x100 * b + 0x1_0000 * c + 0x100_0000 * d
  {
    var t := c + 0x100 * d;
    var s := b + 0x100 * t;
    assert (a + 0x100 * s) / 0x100 == s && (a + 0x100 * s) % 0x100 == a;
    assert s / 0x100 == t && s % 0x100 == b && t / 0x100 == d && t % 0x100 == c;
  }

  lemma WordRoundTrip(x: u32)
    ensures WordOf(WordBytes(x)) == x
  {
    var a := x / 0x100;
    var b := a / 0x100;
    assert x == x % 0x100 + 0x100 * a && a == a % 0x100 + 0x100 * b && b == b % 0x100 + 0x100 * (b / 0x100);
  }

  /** `memcpy(s + o, d, |d|)`. */
  function Patch<T>(s: seq<T>, o: nat, d: seq<T>): (r: seq<T>)
    requires o + |d| <= |s|
    ensures |r| == |s|
    ensures forall k :: 0 <= k < |s| ==> r[k] == if o <= k < o + |d| then d[k - o] else s[k]
  {
    s[..o] + d + s[o + |d|..]
  }

  lemma PatchInside<T>(s: seq<T>, o: nat, d: seq<T>, i: nat, j: nat)
    requires o + |d| <= |s| && i <= j <= |d|
    ensures Patch(s, o, d)[o + i..o + j] == d[i..j]
  {
  }

  lemma PatchOutside<T>(s: seq<T>, o: nat, d: seq<T>, i: nat, j: nat)
    requires o + |d| <= |s| && i <= j <= |s| && (j <= o || o + |d| <= i)
    ensures Patch(s, o, d)[i..j] == s[i..j]
  {
  }

  function Repeat<T>(n: nat, x: T): (r: seq<T>)
    ensures |r| == n
    ensures forall k :: 0 <= k < n ==> r[k] == x
  {
    seq(n, _ => x)
  }

  // ---------------------------------------------------------------- sequences of words

  function WordsBytes(ws: seq<u32>): (r: seq<byte>)
    ensures |r| == 4 * |ws|
  {
    if ws == [] then [] else WordBytes(ws[0]) + WordsBytes(ws[1..])
  }

  function WordsAt(s: seq<byte>, o: nat, n: nat): (r: seq<u32>)
    requires o + 4 * n <= |s|
    ensures |r| == n
    ensures forall k :: 0 <= k < n ==> r[k] == WordAt(s, o + 4 * k)
  {
    seq(n, k requires 0 <= k < n => WordAt(s, o + 4 * k))
  }

  lemma {:induction false} WordsBytesAt(ws: seq<u32>, k: nat)
    requires k < |ws|
    ensures WordsBytes(ws)[4 * k..4 * k + 4] == WordBytes(ws[k])
  {
    if k > 0 {
      var t := WordsBytes(ws[1..]);
      WordsBytesAt(ws[1..], k - 1);
      assert WordsBytes(ws)[4 * k..4 * k + 4] == t[4 * (k - 1)..4 * (k - 1) + 4];
    }
  }

  /** `d` holds the words `ws`. */
  ghost predicate Holds(d: seq<byte>, ws: seq<u32>) {
    |d| == 4 * |ws| && forall k :: 0 <= k < |ws| ==> WordAt(d, 4 * k) == ws[k]
  }

  lemma WordsRoundTrip(ws: seq<u32>)
    ensures Holds(WordsBytes(ws), ws)
  {
    forall k | 0 <= k < |ws| ensures WordAt(WordsBytes(ws), 4 * k) == ws[k] {
      WordsBytesAt(ws, k);
      WordRoundTrip(ws[k]);
    }
  }

  /** Reading words out of a patched buffer: inside the patch, or clear of it. */
  lemma WordsAtPatched(s: seq<byte>, o: nat, d: seq<byte>, ws: seq<u32>)
    requires Holds(d, ws) && o + |d| <= |s|
    ensures WordsAt(Patch(s, o, d), o, |ws|) == ws
  {
  }

  lemma WordsAtClear(s: seq<byte>, o: nat, d: seq<byte>, p: nat, n: nat)
    requires o + |d| <= |s| && p + 4 * n <= |s|
    requires p + 4 * n <= o || o + |d| <= p
    ensures WordsAt(Patch(s, o, d), p, n) == WordsAt(s, p, n)
  {
  }

  // ---------------------------------------------------------------- bit maps

  /** Bit `k` of a word: `(x & (1 << k)) != 0`. */
  predicate BitOf(x: nat, k: nat) {
    if k == 0 then x % 2 == 1 else BitOf(x / 2, k - 1)
  }

  /** `x | (1 << k)`. */
  function WithBit(x: nat, k: nat): (r: nat) {
    if k == 0 then x - x % 2 + 1 else 2 * WithBit(x / 2, k - 1) + x % 2
  }

  /** `x & ~(1 << k)`. */
  function WithoutBit(x: nat, k: nat): (r: nat) {
    if k == 0 then x - x % 2 else 2 * WithoutBit(x / 2, k - 1) + x % 2
  }

  lemma {:induction false} BitOfWithBit(x: nat, k: nat, j: nat)
    ensures BitOf(WithBit(x, k), j) <==> j == k || BitOf(x, j)
  {
    if k > 0 && j > 0 {
      BitOfWithBit(x / 2, k - 1, j - 1);
      assert WithBit(x, k) / 2 == WithBit(x / 2, k - 1);
    } else if k == 0 {
      assert WithBit(x, 0) / 2 == x / 2;
    }
  }

  lemma {:induction false} BitOfWithoutBit(x: nat, k: nat, j: nat)
    ensures BitOf(WithoutBit(x, k), j) <==> j != k && BitOf(x, j)
  {
    if k > 0 && j > 0 {
      BitOfWithoutBit(x / 2, k - 1, j - 1);
      assert WithoutBit(x, k) / 2 == WithoutBit(x / 2, k - 1);
    } else if k == 0 {
      assert WithoutBit(x, 0) / 2 == x / 2;
    }
  }

  lemma {:induction false} ZeroHasNoBits(k: nat)
    ensures !BitOf(0, k)
  {
    if k > 0 {
      ZeroHasNoBits(k - 1);
    }
  }

  lemma LowBits(x: nat)
    ensures BitOf(x, 0) <==> x % 2 == 1
    ensures BitOf(x, 1) <==> x / 2 % 2 == 1
    ensures BitOf(x, 2) <==> x / 4 % 2 == 1
  {
    assert BitOf(x, 2) <==> BitOf(x / 2, 1);
    assert x / 2 / 2 == x / 4;
  }

  function Power2(k: nat): (r: nat)
    ensures r > 0
  {
    if k == 0 then 1 else 2 * Power2(k - 1)
  }

  /** Which bit that is: setting a clear bit `k` adds 2^k, and clearing a set one takes it away. */
  lemma {:induction false} BitWorth(x: nat, k: nat)
    ensures WithBit(x, k) == if BitOf(x, k) then x else x + Power2(k)
    ensures WithoutBit(x, k) == if BitOf(x, k) then x - Power2(k) else x
  {
    if k > 0 {
      BitWorth(x / 2, k - 1);
    }
  }

  /** Setting or clearing a bit below the width keeps a word within its width. */
  lemma {:induction false} BitKeepsWidth(x: nat, k: nat, width: nat)
    requires x < Power2(width) && k < width
    ensures WithBit(x, k) < Power2(width) && WithoutBit(x, k) < Power2(width)
  {
    if k > 0 {
      BitKeepsWidth(x / 2, k - 1, width - 1);
    }
  }

  lemma ByteBit(x: byte, k: nat)
    requires k < 8
    ensures WithBit(x, k) < 0x100 && WithoutBit(x, k) < 0x100
  {
    assert Power2(2) == 4 && Power2(4) == 16 && Power2(6) == 64 && Power2(8) == 0x100;
    BitKeepsWidth(x, k, 8);
  }

  predicate TestBit(bm: seq<byte>, n: nat)
    requires n < 8 * |bm|
  {
    BitOf(bm[n / 8], n % 8)
  }

  function SetBit(bm: seq<byte>, n: nat): (r: seq<byte>)
    requires n < 8 * |bm|
    ensures |r| == |bm|
  {
    ByteBit(bm[n / 8], n % 8);
    bm[n / 8 := WithBit(bm[n / 8], n % 8)]
  }

  function ClearBit(bm: seq<byte>, n: nat): (r: seq<byte>)
    requires n < 8 * |bm|
    ensures |r| == |bm|
  {
    ByteBit(bm[n / 8], n % 8);
    bm[n / 8 := WithoutBit(bm[n / 8], n % 8)]
  }

  lemma TestSetBit(bm: seq<byte>, n: nat, m: nat)
    requires n < 8 * |bm| && m < 8 * |bm|
    ensures TestBit(SetBit(bm, n), m) <==> m == n || TestBit(bm, m)
  {
    BitOfWithBit(bm[n / 8], n % 8, m % 8);
  }

  lemma TestClearBit(bm: seq<byte>, n: nat, m: nat)
    requires n < 8 * |bm| && m < 8 * |bm|
    ensures TestBit(ClearBit(bm, n), m) <==> m != n && TestBit(bm, m)
  {
    BitOfWithoutBit(bm[n / 8], n % 8, m % 8);
  }

  /** Bit `n` of a bit map is worth 2^(n % 8) in byte `n / 8`. */
  lemma BitmapWorth(bm: seq<byte>, n: nat)
    requires n < 8 * |bm|
    ensures !TestBit(bm, n) ==> forall k :: 0 <= k < |bm| ==> SetBit(bm, n)[k] == bm[k] + if k == n / 8 then Power2(n % 8) else 0
    ensures TestBit(bm, n) ==> forall k :: 0 <= k < |bm| ==> ClearBit(bm, n)[k] == bm[k] - if k == n / 8 then Power2(n % 8) else 0
  {
    BitWorth(bm[n / 8], n % 8);
  }

  // ---------------------------------------------------------------- C strings

  /** The characters before the first NUL of a buffer. */
  function CString(s: seq<byte>): (r: seq<byte>)
    ensures |r| <= |s|
  {
    if s == [] || s[0] == 0 then [] else [s[0]] + CString(s[1..])
  }

  lemma {:induction false} CStringOfPadded(name: seq<byte>, n: nat)
    requires 0 !in name && n > 0
    ensures CString(name + Repeat(n, 0)) == name
  {
    var s := name + Repeat(n, 0);
    if name != [] {
      assert s[1..] == name[1..] + Repeat(n, 0);
      CStringOfPadded(name[1..], n);
    }
  }

  // ---------------------------------------------------------------- finite sets

  /** A set of numbers below `n` has at most `n` members, and `n` only if it has them all. */
  lemma {:induction false} AtMost(a: set<nat>, n: nat)
    requires forall k :: k in a ==> k < n
    ensures |a| <= n
    ensures |a| == n ==> forall k :: 0 <= k < n ==> k in a
  {
    if n == 0 {
      assert a == {};
    } else {
      var b := a - {n - 1};
      AtMost(b, n - 1);
      assert n - 1 in a ==> a == b + {n - 1};
      assert n - 1 !in a ==> a == b;
    }
  }

  /** A set that has every number below `n` has at least `n` members. */
  lemma {:induction false} AtLeast(a: set<nat>, n: nat)
    requires forall k :: 0 <= k < n ==> k in a
    ensures n <= |a|
  {
    if n > 0 {
      AtLeast(a - {n - 1}, n - 1);
    }
  }

  lemma {:induction false} SubsetSize<T>(a: set<T>, b: set<T>)
    requires a <= b
    ensures |a| <= |b|
    ensures |a| == |b| ==> a == b
    decreases |a|
  {
    if a == {} {
      assert |b| == 0 ==> b == {};
    } else {
      var x :| x in a;
      SubsetSize(a - {x}, b - {x});
      assert a == (a - {x}) + {x} && b == (b - {x}) + {x};
    }
  }

  /** If every member of `b` is the image of some member of `a`, then `b` is no larger than `a`. */
  lemma {:induction false} ImageSize<S, T>(a: set<S>, b: set<T>, f: map<S, T>)
    requires a <= f.Keys
    requires forall y :: y in b ==> exists x :: x in a && f[x] == y
    ensures |b| <= |a|
    decreases |a|
  {
    if a == {} {
      assert b == {};
    } else {
      var x :| x in a;
      var b' := b - {f[x]};
      forall y | y in b' ensures exists x' :: x' in a - {x} && f[x'] == y {
        var x' :| x' in a && f[x'] == y;
        assert x' in a - {x};
      }
      ImageSize(a - {x}, b', f);
    }
  }

  // ---------------------------------------------------------------- folded definitions

  /** The definitions that proofs carry folded, as one fact each. */
  datatype Folded =
    | OfMirrors | OfDirRead | OfConsistent | OfAdded | OfSavedSuper | OfGoodFds | OfKept | OfMade
    | OfBlockReady | OfChunkStored | OfWrote
    | OfHeaderIs | OfWritten | OfCopied | OfPayloadKept | OfMoved | OfPayloadIs | OfRunState
    | OfUsed | OfTables | OfAccounted | OfReached
    | OfInv

  /** Always true; mentioning it unfolds the definition of that name. */
  predicate Unfold(d: Folded, k: int) {
    true
  }
}
