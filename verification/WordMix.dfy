/** The rotate-and-multiply checksum over 32-bit words, shared by snapshot replies and monitor records. */
module WordMix {
  const CHECKSUM_SEED: bv32 := 0x811c_9dc5

  function Mix(checksum: bv32, word: bv32): bv32 {
    (checksum ^ word).RotateLeft(5) * 0x9e37_79b1
  }

  // The multiplier is odd, so multiplication by it loses nothing modulo 2^32.
  lemma ProductsDiffer(c: bv32, d: bv32, v: bv32, w: bv32)
    requires c ^ v != d ^ w
    ensures (c ^ v).RotateLeft(5) * 0x9e37_79b1 != (d ^ w).RotateLeft(5) * 0x9e37_79b1
  {
  }

  lemma MixDiffers(c: bv32, d: bv32, v: bv32, w: bv32)
    requires c ^ v != d ^ w
    ensures Mix(c, v) != Mix(d, w)
  {
    ProductsDiffer(c, d, v, w);
    calc {
      Mix(c, v);
      (c ^ v).RotateLeft(5) * 0x9e37_79b1;
      !=
      (d ^ w).RotateLeft(5) * 0x9e37_79b1;
      Mix(d, w);
    }
  }

  // With either argument fixed the update is injective in the other one.
  lemma MixSeparates(c: bv32, d: bv32, v: bv32, w: bv32)
    ensures c != d ==> Mix(c, w) != Mix(d, w)
    ensures v != w ==> Mix(c, v) != Mix(c, w)
  {
    hide Mix;
    if c != d {
      MixDiffers(c, d, w, w);
    }
    if v != w {
      MixDiffers(c, c, v, w);
    }
  }

  function Fold(checksum: bv32, words: seq<bv32>): bv32
    decreases |words|
  {
    if words == [] then checksum else Fold(Mix(checksum, words[0]), words[1..])
  }

  lemma FoldNothing(checksum: bv32)
    ensures Fold(checksum, []) == checksum
  {
  }

  lemma {:induction false} FoldSnoc(checksum: bv32, words: seq<bv32>, w: bv32)
    ensures Fold(checksum, words + [w]) == Mix(Fold(checksum, words), w)
    decreases |words|
  {
    hide Mix;
    if words == [] {
      assert [] + [w] == [w];
      assert [w][1..] == [];
    } else {
      assert (words + [w])[1..] == words[1..] + [w];
      FoldSnoc(Mix(checksum, words[0]), words[1..], w);
    }
  }

  lemma {:induction false} FoldSeparatesStates(c: bv32, d: bv32, words: seq<bv32>)
    requires c != d
    ensures Fold(c, words) != Fold(d, words)
    decreases |words|
  {
    hide Mix;
    if words != [] {
      MixSeparates(c, d, words[0], words[0]);
      FoldSeparatesStates(Mix(c, words[0]), Mix(d, words[0]), words[1..]);
    }
  }

  ghost predicate DifferOnlyAt<T>(a: seq<T>, b: seq<T>, k: nat) {
    && |a| == |b| && k < |a| && a[k] != b[k]
    && forall i :: 0 <= i < |a| && i != k ==> a[i] == b[i]
  }

  // Main result: two word sequences that differ in exactly one word have different checksums.
  lemma {:induction false} FoldSeparatesWords(c: bv32, a: seq<bv32>, b: seq<bv32>, k: nat)
    requires DifferOnlyAt(a, b, k)
    ensures Fold(c, a) != Fold(c, b)
    decreases |a|
  {
    hide Mix;
    if k == 0 {
      MixSeparates(c, c, a[0], b[0]);
      assert a[1..] == b[1..];
      FoldSeparatesStates(Mix(c, a[0]), Mix(c, b[0]), a[1..]);
    } else {
      FoldSeparatesWords(Mix(c, a[0]), a[1..], b[1..], k - 1);
    }
  }

  // ---- The monitor record's checksum (rp1_inbound_monitor) ----

  const W_COMPLETION_SEQ: nat := 9
  const W_CHECKSUM: nat := 12
  const W_ARG0: nat := 20
  const W_ARG1: nat := 21

  // Words that the checksum reads as zero.
  predicate Excluded(index: nat) {
    index == W_COMPLETION_SEQ || index == W_CHECKSUM || index == W_ARG0 || index == W_ARG1
  }

  // What the checksum covers: the first n words of the record, the excluded ones blanked.
  function Covered(record: seq<bv32>, n: nat): (words: seq<bv32>)
    requires n <= |record|
    ensures |words| == n
    ensures forall i :: 0 <= i < n ==> words[i] == if Excluded(i) then 0 else record[i]
  {
    seq(n, i requires 0 <= i < n => if Excluded(i) then 0 else record[i])
  }

  method Update(checksum: bv32, word: bv32) returns (mixed: bv32)
    ensures mixed == Mix(checksum, word)
  {
    mixed := (checksum ^ word).RotateLeft(5) * 0x9e37_79b1;
  }

  method ChecksumRecord(record: seq<bv32>, checksumWords: nat) returns (checksum: bv32)
    requires checksumWords <= |record|
    ensures checksum == Fold(0x811c_9dc5, Covered(record, checksumWords))
  {
    hide Mix;
    checksum := CHECKSUM_SEED;
    ghost var words := Covered(record, checksumWords);
    for index := 0 to checksumWords
      invariant checksum == Fold(CHECKSUM_SEED, words[..index])
    {
      var word := if index == 9 || index == 12 || index == 20 || index == 21 then 0 else record[index];
      FoldSnoc(CHECKSUM_SEED, words[..index], word);
      assert words[..index + 1] == words[..index] + [word];
      checksum := Update(checksum, word);
    }
    assert words[..checksumWords] == words;
  }

  // The gate of validate_checksum: the stored word equals the recomputed one.
  predicate ChecksumOk(record: seq<bv32>, n: nat)
    requires W_CHECKSUM < n <= |record|
  {
    record[W_CHECKSUM] == Fold(CHECKSUM_SEED, Covered(record, n))
  }

  // Main result: after a change of any single word a valid record still passes
  // exactly when the word is beyond the covered range or is one of three scratch words.
  lemma SingleWordChange(record: seq<bv32>, changed: seq<bv32>, n: nat, k: nat)
    requires W_CHECKSUM < n <= |record|
    requires ChecksumOk(record, n) && DifferOnlyAt(record, changed, k)
    ensures ChecksumOk(changed, n) <==> k >= n || k == W_COMPLETION_SEQ || k == W_ARG0 || k == W_ARG1
  {
    hide Fold;
    var a, b := Covered(record, n), Covered(changed, n);
    if k >= n || Excluded(k) {
      assert a == b;
    } else {
      assert DifferOnlyAt(a, b, k);
      FoldSeparatesWords(CHECKSUM_SEED, a, b, k);
    }
  }
}
