/** Big-endian 32-bit words in byte strings, and the bitwise test for a power of two. */
module ByteCodec {

  type Byte = x: int | 0 <= x < 256

  const WORD_LIMIT: int := 0x1_0000_0000

  predicate Fits(x: int) {
    0 <= x < WORD_LIMIT
  }

  predicate AllFit(ws: seq<int>) {
    forall k | 0 <= k < |ws| :: Fits(ws[k])
  }

  function Be32(x: int): (r: seq<Byte>)
    ensures |r| == 4
  {
    [x / 0x100_0000 % 256, x / 0x1_0000 % 256, x / 0x100 % 256, x % 256]
  }

  /** The word at position `i`. */
  function WordAt(s: seq<Byte>, i: nat): (r: nat)
    requires i + 4 <= |s|
    ensures Fits(r)
  {
    var a: int, b: int, c: int, d: int := s[i], s[i + 1], s[i + 2], s[i + 3];
    a * 0x100_0000 + b * 0x1_0000 + c * 0x100 + d
  }

  lemma WordReadsBack(x: int)
    requires Fits(x)
    ensures WordAt(Be32(x), 0) == x
  {
    var a, b, c, d := x / 0x100_0000, x / 0x1_0000, x / 0x100, x % 256;
    assert a % 256 == a && b == 256 * a + b % 256 && c == 256 * b + c % 256 && x == 256 * c + d;
  }

  function Words(ws: seq<int>): (r: seq<Byte>)
    ensures |r| == 4 * |ws|
  {
    if ws == [] then [] else Be32(ws[0]) + Words(ws[1..])
  }

  lemma {:induction false} WordsAt(ws: seq<int>, k: nat)
    requires k < |ws| && Fits(ws[k])
    ensures WordAt(Words(ws), 4 * k) == ws[k]
  {
    var s := Words(ws);
    if k == 0 {
      WordReadsBack(ws[0]);
      assert s[..4] == Be32(ws[0]);
    } else {
      WordsAt(ws[1..], k - 1);
      assert s[4..] == Words(ws[1..]);
      assert WordAt(s, 4 * k) == WordAt(s[4..], 4 * (k - 1));
    }
  }

  /** A structure of eight words, as both containers use. */
  function Fields(s: seq<Byte>, i: nat): (r: seq<nat>)
    requires i + 32 <= |s|
    ensures |r| == 8 && AllFit(r)
  {
    [WordAt(s, i), WordAt(s, i + 4), WordAt(s, i + 8), WordAt(s, i + 12),
     WordAt(s, i + 16), WordAt(s, i + 20), WordAt(s, i + 24), WordAt(s, i + 28)]
  }

  lemma WordInSlice(s: seq<Byte>, i: nat, j: nat, n: nat)
    requires i + n <= |s| && j + 4 <= n
    ensures WordAt(s, i + j) == WordAt(s[i..i + n], j)
  {
  }

  /** Eight words written at a position read back from it. */
  lemma FieldsReadBack(s: seq<Byte>, i: nat, ws: seq<int>)
    requires |ws| == 8 && AllFit(ws) && i + 32 <= |s| && s[i..i + 32] == Words(ws)
    ensures Fields(s, i) == ws
  {
    hide WordAt, Words, Fits;
    forall k | 0 <= k < 8 ensures WordAt(s, i + 4 * k) == ws[k] {
      WordsAt(ws, k);
      WordInSlice(s, i, 4 * k, 32);
    }
    assert WordAt(s, i) == WordAt(s, i + 4 * 0);
    assert WordAt(s, i + 4) == WordAt(s, i + 4 * 1);
    assert WordAt(s, i + 8) == WordAt(s, i + 4 * 2);
    assert WordAt(s, i + 12) == WordAt(s, i + 4 * 3);
    assert WordAt(s, i + 16) == WordAt(s, i + 4 * 4);
    assert WordAt(s, i + 20) == WordAt(s, i + 4 * 5);
    assert WordAt(s, i + 24) == WordAt(s, i + 4 * 6);
    assert WordAt(s, i + 28) == WordAt(s, i + 4 * 7);
  }

  /** Row `i` of `n` rows of the same size ends inside them. */
  lemma RowEndsInside(i: nat, n: nat, size: nat)
    requires i < n
    ensures i * size + size <= n * size
  {
    var rest := n - i - 1;
    assert n * size == i * size + size + rest * size;
    assert rest * size >= 0;
  }

  // ----- powers of two -----

  /** Bitwise conjunction of two naturals. */
  function BitAnd(a: nat, b: nat): nat {
    if a == 0 || b == 0 then 0
    else 2 * BitAnd(a / 2, b / 2) + (a % 2) * (b % 2)
  }

  predicate PowerOfTwo(n: int) {
    n == 1 || (n > 0 && n % 2 == 0 && PowerOfTwo(n / 2))
  }

  lemma {:induction false} BitAndSelf(a: nat)
    ensures BitAnd(a, a) == a
  {
    if a > 0 {
      BitAndSelf(a / 2);
      assert a == 2 * (a / 2) + a % 2;
      assert a % 2 == 0 || a % 2 == 1;
    }
  }

  /** The usual mask test: a positive number is a power of two when it shares no bit with its predecessor. */
  lemma {:induction false} PowerOfTwoExactly(n: nat)
    requires n > 0
    ensures BitAnd(n, n - 1) == 0 <==> PowerOfTwo(n)
  {
    if n % 2 == 1 {
      assert n / 2 == (n - 1) / 2;
      BitAndSelf(n / 2);
    } else {
      assert (n - 1) / 2 == n / 2 - 1;
      PowerOfTwoExactly(n / 2);
    }
  }
}
