/** Little-endian 32-bit words in a byte stream. */
module WireWords {
  function Le32(bytes: seq<bv8>, off: nat): bv32
    requires off + 4 <= |bytes|
  {
    FromLe(bytes[off], bytes[off + 1], bytes[off + 2], bytes[off + 3])
  }

  function FromLe(b0: bv8, b1: bv8, b2: bv8, b3: bv8): bv32 {
    (b0 as bv32) | (b1 as bv32 << 8) | (b2 as bv32 << 16) | (b3 as bv32 << 24)
  }

  function ToLe(w: bv32): (r: seq<bv8>)
    ensures |r| == 4
  {
    [(w & 0xff) as bv8, ((w >> 8) & 0xff) as bv8, ((w >> 16) & 0xff) as bv8, ((w >> 24) & 0xff) as bv8]
  }

  lemma LeRoundTrip(w: bv32)
    ensures FromLe((w & 0xff) as bv8, ((w >> 8) & 0xff) as bv8, ((w >> 16) & 0xff) as bv8, ((w >> 24) & 0xff) as bv8) == w
  {
  }

  // A four-byte field read back as a word.
  function ReadLe(s: seq<bv8>): bv32
    requires |s| == 4
  {
    FromLe(s[0], s[1], s[2], s[3])
  }

  function Words(ws: seq<bv32>): (r: seq<bv8>)
    ensures |r| == 4 * |ws|
  {
    if ws == [] then [] else ToLe(ws[0]) + Words(ws[1..])
  }

  lemma {:induction false} WordAt(ws: seq<bv32>, i: nat, rest: seq<bv8>)
    requires i < |ws|
    ensures Le32(Words(ws) + rest, 4 * i) == ws[i]
    decreases i
  {
    if i == 0 {
      LeRoundTrip(ws[0]);
      hide FromLe;
    } else {
      hide FromLe, ToLe;
      WordAt(ws[1..], i - 1, rest);
      assert Words(ws) + rest == ToLe(ws[0]) + (Words(ws[1..]) + rest);
    }
  }

  // The words of a byte stream whose length is a multiple of four.
  function WordsOf(data: seq<bv8>): (ws: seq<bv32>)
    requires |data| % 4 == 0
    ensures |ws| == |data| / 4
    ensures forall i :: 0 <= i < |ws| ==> ws[i] == Le32(data, 4 * i)
  {
    seq(|data| / 4, i requires 0 <= i < |data| / 4 => Le32(data, 4 * i))
  }

  lemma BytesRoundTrip(b0: bv8, b1: bv8, b2: bv8, b3: bv8)
    ensures ToLe(FromLe(b0, b1, b2, b3)) == [b0, b1, b2, b3]
  {
  }

  lemma {:induction false} WordsOfWords(data: seq<bv8>)
    requires |data| % 4 == 0
    ensures Words(WordsOf(data)) == data
    decreases |data|
  {
    hide FromLe, ToLe;
    if data != [] {
      BytesRoundTrip(data[0], data[1], data[2], data[3]);
      WordsOfWords(data[4..]);
      assert WordsOf(data)[1..] == WordsOf(data[4..]);
      assert data == [data[0], data[1], data[2], data[3]] + data[4..];
    }
  }

  lemma WordsThenWordsOf(ws: seq<bv32>)
    ensures WordsOf(Words(ws)) == ws
  { }
}
