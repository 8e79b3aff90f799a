/** Validation of the checksummed snapshot replies that the debug stub reads from the mailbox data area. */
module SnapshotReply {
  import opened Prelude
  import opened WireWords
  import opened WordMix

  datatype TransportError = Unsupported

  const SNAPSHOT_RESPONSE_MAGIC: bv32 := 0x5052_3153 // "S1RP", little-endian
  const SNAPSHOT_FORMAT_VERSION: bv32 := 2
  const SNAPSHOT_MAX_ENTRIES: nat := 8
  const SNAPSHOT_HEADER_WORDS: nat := 6
  const SNAPSHOT_ENTRY_WORDS: nat := 3

  // What the reply to a given request must carry.
  datatype Request = Request(snapshotId: bv32, sequence: bv32, expectedStatus: bv32)

  datatype Entry = Entry(address: bv32, value: bv32, status: bv32)

  predicate HeaderMatches(data: seq<bv8>, req: Request)
    requires |data| >= 20
  {
    && Le32(data, 0) == SNAPSHOT_RESPONSE_MAGIC
    && Le32(data, 4) == SNAPSHOT_FORMAT_VERSION
    && Le32(data, 8) == req.snapshotId
    && Le32(data, 12) == req.sequence
    && Le32(data, 16) == req.expectedStatus
  }

  // The checksum of all words of the reply but the last.
  function BodyChecksum(data: seq<bv8>): bv32
    requires |data| % 4 == 0 && |data| >= 4
  {
    var ws := WordsOf(data);
    Fold(CHECKSUM_SEED, ws[..|ws| - 1])
  }

  method ValidateSnapshotResponse(data: seq<bv8>, req: Request) returns (r: Result<nat, TransportError>)
    ensures r == Validate(data, req)
  {
    hide HeaderMatches, Le32, Fold;
    if |data| < (SNAPSHOT_HEADER_WORDS + 1) * 4 || |data| % 4 != 0 {
      return Err(Unsupported);
    }
    var count := Le32(data, 20) as int;
    if count > SNAPSHOT_MAX_ENTRIES {
      return Err(Unsupported);
    }
    var words := SNAPSHOT_HEADER_WORDS + count * SNAPSHOT_ENTRY_WORDS + 1;
    if |data| != words * 4 || !HeaderMatches(data, req) {
      return Err(Unsupported);
    }
    var checksum := CHECKSUM_SEED;
    ghost var ws := WordsOf(data);
    assert ws[..0] == [];
    FoldNothing(CHECKSUM_SEED);
    for index := 0 to words - 1
      invariant checksum == Fold(CHECKSUM_SEED, ws[..index])
    {
      FoldSnoc(CHECKSUM_SEED, ws[..index], ws[index]);
      assert ws[..index + 1] == ws[..index] + [ws[index]];
      checksum := Update(checksum, Le32(data, 4 * index));
    }
    if Le32(data, 4 * (words - 1)) != checksum {
      return Err(Unsupported);
    }
    return Ok(count);
  }

  function Validate(data: seq<bv8>, req: Request): Result<nat, TransportError> {
    if |data| < 28 || |data| % 4 != 0 then Err(Unsupported)
    else
      var count := Le32(data, 20) as int;
      if count > SNAPSHOT_MAX_ENTRIES then Err(Unsupported)
      else if |data| != (7 + 3 * count) * 4 || !HeaderMatches(data, req) then Err(Unsupported)
      else if Le32(data, |data| - 4) != BodyChecksum(data) then Err(Unsupported)
      else Ok(count)
  }

  // The decision in numbers: the magic "S1RP", version 2, the request's three words, at most eight entries of
  // three words each, and a checksum over everything before it.
  lemma ValidateInNumbers(data: seq<bv8>, req: Request, n: nat)
    ensures Validate(data, req) == Ok(n)
       <==> && n <= 8 && |data| == 4 * (7 + 3 * n)
            && Le32(data, 0) == 0x5052_3153 && Le32(data, 4) == 2
            && Le32(data, 8) == req.snapshotId && Le32(data, 12) == req.sequence
            && Le32(data, 16) == req.expectedStatus && Le32(data, 20) as int == n
            && Le32(data, |data| - 4) == Fold(0x811c_9dc5, WordsOf(data)[..|data| / 4 - 1])
  {
    hide Le32, Fold, WordsOf;
  }

  // The same decision, read off the reply's words.
  function ValidateWords(ws: seq<bv32>, req: Request): Result<nat, TransportError>
    requires |ws| >= 7
  {
    var count := ws[5] as int;
    var last := |ws| - 1;
    if count > SNAPSHOT_MAX_ENTRIES || |ws| != 7 + 3 * count then Err(Unsupported)
    else if ws[..5] != Preamble(req) then Err(Unsupported)
    else if ws[last] != Fold(CHECKSUM_SEED, ws[..last]) then Err(Unsupported)
    else Ok(count)
  }

  function Preamble(req: Request): seq<bv32> {
    [SNAPSHOT_RESPONSE_MAGIC, SNAPSHOT_FORMAT_VERSION, req.snapshotId, req.sequence, req.expectedStatus]
  }

  lemma ValidateReadsWords(data: seq<bv8>, req: Request)
    requires |data| >= 28 && |data| % 4 == 0
    ensures Validate(data, req) == ValidateWords(WordsOf(data), req)
  {
    hide Le32, Fold;
    var ws := WordsOf(data);
    assert ws[0] == Le32(data, 4 * 0) && ws[1] == Le32(data, 4 * 1) && ws[2] == Le32(data, 4 * 2);
    assert ws[3] == Le32(data, 4 * 3) && ws[4] == Le32(data, 4 * 4) && ws[5] == Le32(data, 4 * 5);
    assert ws[|ws| - 1] == Le32(data, 4 * (|ws| - 1));
    assert ws[..5] == [ws[0], ws[1], ws[2], ws[3], ws[4]];
    assert HeaderMatches(data, req) <==> ws[..5] == Preamble(req);
  }

  // ---- The validator accepts exactly the encodings of some entry list ----

  function Flatten(entries: seq<Entry>): (ws: seq<bv32>)
    ensures |ws| == 3 * |entries|
  {
    if entries == [] then []
    else [entries[0].address, entries[0].value, entries[0].status] + Flatten(entries[1..])
  }

  function Unflatten(ws: seq<bv32>): (entries: seq<Entry>)
    requires |ws| % 3 == 0
    ensures 3 * |entries| == |ws|
  {
    if ws == [] then [] else [Entry(ws[0], ws[1], ws[2])] + Unflatten(ws[3..])
  }

  lemma {:induction false} FlattenUndoesUnflatten(ws: seq<bv32>)
    requires |ws| % 3 == 0
    ensures Flatten(Unflatten(ws)) == ws
    decreases |ws|
  {
    if ws != [] {
      FlattenUndoesUnflatten(ws[3..]);
      assert Unflatten(ws)[1..] == Unflatten(ws[3..]);
    }
  }

  function Body(req: Request, entries: seq<Entry>): (ws: seq<bv32>)
    requires |entries| <= SNAPSHOT_MAX_ENTRIES
    ensures |ws| == 6 + 3 * |entries|
  {
    Preamble(req) + [|entries| as bv32] + Flatten(entries)
  }

  function Encode(req: Request, entries: seq<Entry>): seq<bv8>
    requires |entries| <= SNAPSHOT_MAX_ENTRIES
  {
    var body := Body(req, entries);
    Words(body + [Fold(CHECKSUM_SEED, body)])
  }

  lemma CountBack(n: nat)
    requires n <= 8
    ensures (n as bv32) as int == n
  { }

  lemma CountUnique(c: bv32)
    ensures (c as int) as bv32 == c
  {
  }

  lemma EncodingIsAccepted(req: Request, entries: seq<Entry>)
    requires |entries| <= SNAPSHOT_MAX_ENTRIES
    ensures Validate(Encode(req, entries), req) == Ok(|entries|)
  {
    hide Words, Fold, Flatten, Validate, Preamble, WordsOf;
    var body := Body(req, entries);
    var ws := body + [Fold(CHECKSUM_SEED, body)];
    WordsThenWordsOf(ws);
    ValidateReadsWords(Words(ws), req);
    assert ws[..|ws| - 1] == body && ws[..5] == Preamble(req);
    CountBack(|entries|);
  }

  lemma AcceptedWords(ws: seq<bv32>, req: Request) returns (entries: seq<Entry>)
    requires |ws| >= 7 && ValidateWords(ws, req).Ok?
    ensures |entries| == ValidateWords(ws, req).value <= SNAPSHOT_MAX_ENTRIES
    ensures ws == Body(req, entries) + [Fold(CHECKSUM_SEED, Body(req, entries))]
  {
    hide Fold, Flatten, Unflatten, Preamble;
    var last := |ws| - 1;
    entries := Unflatten(ws[6..last]);
    FlattenUndoesUnflatten(ws[6..last]);
    CountUnique(ws[5]);
    assert ws[..last] == ws[..5] + [ws[5]] + ws[6..last];
    assert ws == ws[..last] + [ws[last]];
  }

  lemma AcceptedIsAnEncoding(data: seq<bv8>, req: Request)
    requires Validate(data, req).Ok?
    ensures exists entries: seq<Entry> ::
              |entries| == Validate(data, req).value <= SNAPSHOT_MAX_ENTRIES && Encode(req, entries) == data
  {
    assert |data| >= 28 && |data| % 4 == 0;
    hide Words, Fold, Body, Validate, WordsOf, ValidateWords;
    ValidateReadsWords(data, req);
    WordsOfWords(data);
    var entries := AcceptedWords(WordsOf(data), req);
    assert Encode(req, entries) == data;
  }

  // Main result: acceptance with n entries means being the encoding of some n entries.
  lemma AcceptsExactlyEncodings(data: seq<bv8>, req: Request, n: nat)
    ensures Validate(data, req) == Ok(n)
       <==> exists entries: seq<Entry> :: |entries| == n <= SNAPSHOT_MAX_ENTRIES && Encode(req, entries) == data
  {
    hide Validate, Encode;
    if Validate(data, req) == Ok(n) {
      AcceptedIsAnEncoding(data, req);
    }
    forall entries: seq<Entry> | |entries| == n <= SNAPSHOT_MAX_ENTRIES && Encode(req, entries) == data
      ensures Validate(data, req) == Ok(n)
    {
      EncodingIsAccepted(req, entries);
    }
  }

  lemma SingleWordError(ws: seq<bv32>, vs: seq<bv32>, req: Request, k: nat)
    requires |ws| >= 7 && ValidateWords(ws, req).Ok? && DifferOnlyAt(ws, vs, k)
    ensures ValidateWords(vs, req) == Err(Unsupported)
  {
    hide Fold, Preamble;
    var last := |ws| - 1;
    if k < 5 {
      assert ws[..5][k] != vs[..5][k];
    } else if k == 5 {
      CountUnique(ws[5]);
      CountUnique(vs[5]);
    } else if k == last {
      assert ws[..last] == vs[..last];
    } else {
      assert DifferOnlyAt(ws[..last], vs[..last], k);
      FoldSeparatesWords(CHECKSUM_SEED, ws[..last], vs[..last], k);
    }
  }

  // Main result: a reply that differs from an accepted one in exactly one 32-bit word is rejected.
  lemma SingleWordErrorIsRejected(data: seq<bv8>, bad: seq<bv8>, req: Request, k: nat)
    requires Validate(data, req).Ok?
    requires |bad| == |data| && DifferOnlyAt(WordsOf(data), WordsOf(bad), k)
    ensures Validate(bad, req) == Err(Unsupported)
  {
    assert |data| >= 28 && |data| % 4 == 0;
    hide Fold, Validate, ValidateWords, WordsOf;
    ValidateReadsWords(data, req);
    ValidateReadsWords(bad, req);
    SingleWordError(WordsOf(data), WordsOf(bad), req, k);
  }
}
