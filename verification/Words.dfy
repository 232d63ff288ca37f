/** 64-bit machine words as the bitmaps use them: element k of a word is its bit k.
    Shifts, or and masking are the C operators on unsigned long. */
module Words {

  datatype Option<+T> = None | Some(value: T)

  type Word = w: seq<bool> | |w| == 64 witness seq(64, _ => false)

  const TWO_64: nat := 0x1_0000_0000_0000_0000

  const ZERO: Word := seq(64, _ => false)
  const ONES: Word := seq(64, _ => true)

  /** w >> j: bits shifted out are lost, zeros come in at the top. */
  function Shr(w: Word, j: nat): (r: Word)
    requires j <= 64
    ensures forall k | 0 <= k < 64 :: r[k] == (k + j < 64 && w[k + j])
  {
    w[j..] + seq(j, _ => false)
  }

  /** w << j */
  function Shl(w: Word, j: nat): (r: Word)
    requires j <= 64
    ensures forall k | 0 <= k < 64 :: r[k] == (j <= k && w[k - j])
  {
    seq(j, _ => false) + w[..64 - j]
  }

  function Or(a: Word, b: Word): (r: Word)
    ensures forall k | 0 <= k < 64 :: r[k] == (a[k] || b[k])
  {
    seq(64, k requires 0 <= k < 64 => a[k] || b[k])
  }

  function And(a: Word, b: Word): (r: Word)
    ensures forall k | 0 <= k < 64 :: r[k] == (a[k] && b[k])
  {
    seq(64, k requires 0 <= k < 64 => a[k] && b[k])
  }

  /** (1 << n) - 1 */
  function LowMask(n: nat): (r: Word)
    requires n <= 64
    ensures forall k | 0 <= k < 64 :: r[k] == (k < n)
  {
    seq(64, k => k < n)
  }

  /** The bits of a word array, least significant bit of word 0 first. */
  function Bits(ws: seq<Word>): (b: seq<bool>)
    ensures |b| == 64 * |ws|
    ensures forall i | 0 <= i < |b| :: b[i] == ws[i / 64][i % 64]
  {
    seq(64 * |ws|, i requires 0 <= i < 64 * |ws| => ws[i / 64][i % 64])
  }

  /** Updating one bit of one word is updating that bit of the whole map. */
  lemma BitsUpdate(ws: seq<Word>, i: nat, v: bool)
    requires i < 64 * |ws|
    ensures Bits(ws[i / 64 := ws[i / 64][i % 64 := v]]) == Bits(ws)[i := v]
  {
  }

  /** Number of set bits. */
  function CountSet(b: seq<bool>): nat
  {
    if b == [] then 0 else CountSet(b[..|b| - 1]) + (if b[|b| - 1] then 1 else 0)
  }

  lemma {:induction false} CountSetUpdate(b: seq<bool>, i: nat, v: bool)
    requires i < |b|
    ensures CountSet(b[i := v]) == CountSet(b) - (if b[i] then 1 else 0) + (if v then 1 else 0)
  {
    var n := |b| - 1;
    if i == n {
      assert b[i := v][..n] == b[..n];
    } else {
      assert b[i := v][..n] == b[..n][i := v];
      CountSetUpdate(b[..n], i, v);
    }
  }

  /** Some bit is clear unless every bit is counted. */
  lemma {:induction false} CountSetFull(b: seq<bool>)
    ensures CountSet(b) <= |b|
    ensures CountSet(b) == |b| <==> forall i | 0 <= i < |b| :: b[i]
  {
    if b != [] {
      var n := |b| - 1;
      CountSetFull(b[..n]);
      if forall i | 0 <= i < n :: b[..n][i] {
        assert forall i | 0 <= i < n :: b[i];
      } else {
        var i :| 0 <= i < n && !b[..n][i];
        assert !b[i];
      }
    }
  }
}
