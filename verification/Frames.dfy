/** Newline-framed tables: tuple chunks and raw-string blobs, and exactly what searching them finds. */
module Frames {
  import opened Text

  const NL: char := '\n'

  /* ---------- blob keys ---------- */

  /** The four replacements, one after the other. */
  function BlobKey(key: string): string {
    ReplaceAll(ReplaceAll(ReplaceAll(ReplaceAll(key, '%', "%25"), '`', "%60"), '\n', "%0A"), '\r', "%0D")
  }

  function BlobChar(c: char): string {
    if c == '%' then "%25" else if c == '`' then "%60" else if c == '\n' then "%0A" else if c == '\r' then "%0D"
      else [c]
  }

  /** The one-pass escape of every character on its own. */
  function OnePass(key: string): string {
    if key == "" then "" else BlobChar(key[0]) + OnePass(key[1..])
  }

  lemma ReplaceAllUnit(c: char, old': char, with: string)
    ensures ReplaceAll([c], old', with) == if c == old' then with else [c]
  {
    assert [c][1..] == "";
  }

  lemma {:induction false} ReplaceAllAbsent(s: string, c: char, with: string)
    requires c !in s
    ensures ReplaceAll(s, c, with) == s
  {
    if s != "" {
      ReplaceAllAbsent(s[1..], c, with);
    }
  }

  lemma BlobCharExact(c: char)
    ensures BlobKey([c]) == BlobChar(c)
  {
    ReplaceAllUnit(c, '%', "%25");
    if c == '%' {
      ReplaceAllAbsent("%25", '`', "%60");
      ReplaceAllAbsent("%25", '\n', "%0A");
      ReplaceAllAbsent("%25", '\r', "%0D");
    } else {
      ReplaceAllUnit(c, '`', "%60");
      if c == '`' {
        ReplaceAllAbsent("%60", '\n', "%0A");
        ReplaceAllAbsent("%60", '\r', "%0D");
      } else {
        ReplaceAllUnit(c, '\n', "%0A");
        if c == '\n' {
          ReplaceAllAbsent("%0A", '\r', "%0D");
        } else {
          ReplaceAllUnit(c, '\r', "%0D");
        }
      }
    }
  }

  lemma BlobKeyConcat(s: string, t: string)
    ensures BlobKey(s + t) == BlobKey(s) + BlobKey(t)
  {
    ReplaceAllConcat(s, t, '%', "%25");
    var s1, t1 := ReplaceAll(s, '%', "%25"), ReplaceAll(t, '%', "%25");
    ReplaceAllConcat(s1, t1, '`', "%60");
    var s2, t2 := ReplaceAll(s1, '`', "%60"), ReplaceAll(t1, '`', "%60");
    ReplaceAllConcat(s2, t2, '\n', "%0A");
    ReplaceAllConcat(ReplaceAll(s2, '\n', "%0A"), ReplaceAll(t2, '\n', "%0A"), '\r', "%0D");
  }

  /** The four sequential replacements are the one-pass escape. */
  lemma {:induction false} BlobKeyIsOnePass(key: string)
    ensures BlobKey(key) == OnePass(key)
  {
    if key != "" {
      assert key == [key[0]] + key[1..];
      BlobKeyConcat([key[0]], key[1..]);
      BlobCharExact(key[0]);
      BlobKeyIsOnePass(key[1..]);
    }
  }

  /** The escape leaves no newline, carriage return or backtick. */
  lemma {:induction false} OnePassIsRaw(key: string)
    ensures Free(OnePass(key), '\n') && Free(OnePass(key), '\r') && Free(OnePass(key), '`')
  {
    if key != "" {
      OnePassIsRaw(key[1..]);
    }
  }

  /** Two escaped characters start alike only if they are the same. */
  lemma BlobCharPrefix(a: char, b: char, s: string, t: string)
    requires BlobChar(a) + s == BlobChar(b) + t
    ensures a == b && s == t
  {
    var u, v := BlobChar(a) + s, BlobChar(b) + t;
    assert u[0] == v[0];
    if u[0] == '%' {
      assert |BlobChar(a)| == 3 && |BlobChar(b)| == 3;
      assert u[1] == BlobChar(a)[1] && v[1] == BlobChar(b)[1] && u[2] == BlobChar(a)[2] && v[2] == BlobChar(b)[2];
      assert u[3..] == s && v[3..] == t;
    } else {
      assert u[1..] == s && v[1..] == t;
    }
  }

  /** The escape is injective. */
  lemma {:induction false} OnePassInjective(a: string, b: string)
    requires OnePass(a) == OnePass(b)
    ensures a == b
  {
    if a != "" && b != "" {
      BlobCharPrefix(a[0], b[0], OnePass(a[1..]), OnePass(b[1..]));
      OnePassInjective(a[1..], b[1..]);
    }
  }

  lemma BlobKeyExact(key: string)
    ensures Free(BlobKey(key), '\n') && Free(BlobKey(key), '\r') && Free(BlobKey(key), '`')
    ensures forall other :: BlobKey(other) == BlobKey(key) ==> other == key
  {
    BlobKeyIsOnePass(key);
    OnePassIsRaw(key);
    forall other | BlobKey(other) == BlobKey(key) ensures other == key {
      BlobKeyIsOnePass(other);
      OnePassInjective(other, key);
    }
  }

  /* ---------- tuple chunks ---------- */

  /** Each tuple with a newline after it. */
  function Lines(tuples: seq<string>): string {
    if tuples == [] then "" else tuples[0] + "\n" + Lines(tuples[1..])
  }

  /** A newline, then each tuple with a newline. */
  function Chunk(tuples: seq<string>): string {
    "\n" + Lines(tuples)
  }

  lemma {:induction false} LinesIsJoin(tuples: seq<string>)
    ensures Join(tuples + [""], NL) == Lines(tuples)
  {
    if tuples != [] {
      LinesIsJoin(tuples[1..]);
      assert (tuples + [""])[1..] == tuples[1..] + [""];
    }
  }

  lemma {:induction false} LinesGrow(tuples: seq<string>, tuple: string)
    ensures Lines(tuples + [tuple]) == Lines(tuples) + (tuple + "\n")
  {
    if tuples == [] {
      assert [tuple][1..] == [];
    } else {
      LinesGrow(tuples[1..], tuple);
      assert (tuples + [tuple])[1..] == tuples[1..] + [tuple];
    }
  }

  lemma ChunkIsJoin(tuples: seq<string>)
    ensures Chunk(tuples) == Join([""] + (tuples + [""]), NL)
  {
    LinesIsJoin(tuples);
    var lines := [""] + (tuples + [""]);
    assert lines[1..] == tuples + [""];
  }

  /** A framed line is found in a chunk exactly when it is one of its tuples. */
  lemma ChunkMembership(tuples: seq<string>, line: string)
    requires AllFree(tuples, NL) && Free(line, NL)
    ensures Contains(Chunk(tuples), Framed(line)) <==> line in tuples
  {
    var lines := [""] + (tuples + [""]);
    ChunkIsJoin(tuples);
    assert forall k | 0 <= k < |lines| :: Free(lines[k], NL);
    SplitJoin(lines, NL);
    FramedExact(Chunk(tuples), line);
    if line in tuples {
      var k :| 0 <= k < |tuples| && tuples[k] == line;
      assert lines[k + 1] == line;
    }
    if InteriorLine(Chunk(tuples), line) {
      var k :| 0 < k < |lines| - 1 && lines[k] == line;
      assert tuples[k - 1] == line;
    }
  }

  function Flatten(pieces: seq<seq<string>>): seq<string> {
    if pieces == [] then [] else Flatten(pieces[..|pieces| - 1]) + pieces[|pieces| - 1]
  }

  lemma {:induction false} InFlatten(pieces: seq<seq<string>>, t: string)
    ensures t in Flatten(pieces) <==> exists k | 0 <= k < |pieces| :: t in pieces[k]
  {
    if pieces != [] {
      var init := pieces[..|pieces| - 1];
      InFlatten(init, t);
      if k :| 0 <= k < |init| && t in init[k] {
        assert t in pieces[k];
      }
    }
  }

  /** A piece fits the maximum or is a single tuple. */
  ghost predicate Fits(maximum: nat, piece: seq<string>) {
    piece != [] && (ByteLen(Chunk(piece)) <= maximum || |piece| == 1)
  }

  /** The next tuple would push this piece over the maximum. */
  ghost predicate Full(maximum: nat, piece: seq<string>, next: string) {
    ByteLen(Chunk(piece)) + ByteLen(next + "\n") > maximum
  }

  /** The pieces a chunking cuts: each fits, and is closed only when full. */
  ghost predicate Cut(maximum: nat, pieces: seq<seq<string>>, chunks: seq<string>) {
    && |chunks| == |pieces|
    && (pieces != [] ==>
          var n := |pieces| - 1;
          && Fits(maximum, pieces[n]) && chunks[n] == Chunk(pieces[n])
          && (n > 0 ==> Full(maximum, pieces[n - 1], pieces[n][0]))
          && Cut(maximum, pieces[..n], chunks[..n]))
  }

  lemma {:induction false} CutAt(maximum: nat, pieces: seq<seq<string>>, chunks: seq<string>, k: nat)
    requires Cut(maximum, pieces, chunks) && k < |pieces|
    ensures Fits(maximum, pieces[k]) && chunks[k] == Chunk(pieces[k])
    ensures k > 0 ==> Full(maximum, pieces[k - 1], pieces[k][0])
  {
    var n := |pieces| - 1;
    if k < n {
      CutAt(maximum, pieces[..n], chunks[..n], k);
    }
  }

  ghost predicate Chunked(tuples: seq<string>, maximum: nat, pieces: seq<seq<string>>, chunks: seq<string>) {
    Flatten(pieces) == tuples && Cut(maximum, pieces, chunks)
  }

  lemma ChunkGrows(piece: seq<string>, tuple: string)
    ensures Chunk(piece + [tuple]) == Chunk(piece) + (tuple + "\n")
    ensures ByteLen(Chunk(piece + [tuple])) == ByteLen(Chunk(piece)) + ByteLen(tuple + "\n")
  {
    LinesGrow(piece, tuple);
    assert "\n" + (Lines(piece) + (tuple + "\n")) == Chunk(piece) + (tuple + "\n");
    ByteLenConcat(Chunk(piece), tuple + "\n");
  }

  lemma ChunkLen(piece: seq<string>)
    ensures ByteLen(Chunk(piece)) > 1 <==> piece != []
  {
    assert Chunk(piece)[1..] == Lines(piece);
    if piece != [] {
      ByteLenConcat(piece[0] + "\n", Lines(piece[1..]));
      ByteLenConcat(piece[0], "\n");
    }
  }

  /** The chunks closed so far, and the one being filled, hold the tuples seen. */
  ghost predicate Collecting(maximum: nat, seen: seq<string>, pieces: seq<seq<string>>, chunks: seq<string>,
                             piece: seq<string>, chunk: string) {
    && chunk == Chunk(piece) && Cut(maximum, pieces, chunks)
    && Flatten(pieces) + piece == seen
    && (if seen == [] then pieces == [] && piece == [] else Fits(maximum, piece))
    && (pieces != [] ==> Full(maximum, pieces[|pieces| - 1], piece[0]))
  }

  lemma Collect(maximum: nat, seen: seq<string>, pieces: seq<seq<string>>, chunks: seq<string>,
                piece: seq<string>, chunk: string, tuple: string)
    requires Collecting(maximum, seen, pieces, chunks, piece, chunk)
    requires ByteLen(chunk) <= 1 || ByteLen(chunk) + ByteLen(tuple + "\n") <= maximum
    ensures Collecting(maximum, seen + [tuple], pieces, chunks, piece + [tuple], chunk + (tuple + "\n"))
  {
    ChunkLen(piece);
    ChunkGrows(piece, tuple);
    assert Flatten(pieces) + (piece + [tuple]) == Flatten(pieces) + piece + [tuple];
  }

  lemma CollectNext(maximum: nat, seen: seq<string>, pieces: seq<seq<string>>, chunks: seq<string>,
                    piece: seq<string>, chunk: string, tuple: string)
    requires Collecting(maximum, seen, pieces, chunks, piece, chunk)
    requires ByteLen(chunk) > 1 && ByteLen(chunk) + ByteLen(tuple + "\n") > maximum
    ensures Collecting(maximum, seen + [tuple], pieces + [piece], chunks + [chunk], [tuple], "\n" + (tuple + "\n"))
  {
    ChunkLen(piece);
    CloseChunk(maximum, pieces, chunks, piece);
    ChunkGrows([], tuple);
    assert [] + [tuple] == [tuple];
  }

  lemma Collected(maximum: nat, seen: seq<string>, pieces: seq<seq<string>>, chunks: seq<string>, piece: seq<string>,
                  chunk: string)
    requires Collecting(maximum, seen, pieces, chunks, piece, chunk)
    ensures if ByteLen(chunk) > 1 then Chunked(seen, maximum, pieces + [piece], chunks + [chunk])
            else Chunked(seen, maximum, pieces, chunks)
  {
    ChunkLen(piece);
    if piece != [] {
      CloseChunk(maximum, pieces, chunks, piece);
    }
  }

  /** Cut tuples into newline-delimited chunks of at most `maximum` bytes. */
  method SharedTupleChunks(tuples: seq<string>, maximum: nat)
      returns (chunks: seq<string>, ghost pieces: seq<seq<string>>)
    ensures Chunked(tuples, maximum, pieces, chunks)
    ensures exists cut :: Chunked(tuples, maximum, cut, chunks)
  {
    chunks, pieces := [], [];
    var chunk := "\n";
    ghost var piece: seq<string> := [];
    for i := 0 to |tuples|
      invariant Collecting(maximum, tuples[..i], pieces, chunks, piece, chunk)
    {
      var addition := tuples[i] + "\n";
      assert tuples[..i + 1] == tuples[..i] + [tuples[i]];
      if ByteLen(chunk) > 1 && ByteLen(chunk) + ByteLen(addition) > maximum {
        CollectNext(maximum, tuples[..i], pieces, chunks, piece, chunk, tuples[i]);
        chunks, pieces := chunks + [chunk], pieces + [piece];
        chunk, piece := "\n", [tuples[i]];
      } else {
        Collect(maximum, tuples[..i], pieces, chunks, piece, chunk, tuples[i]);
        piece := piece + [tuples[i]];
      }
      chunk := chunk + addition;
    }
    assert tuples[..|tuples|] == tuples;
    Collected(maximum, tuples, pieces, chunks, piece, chunk);
    if ByteLen(chunk) > 1 {
      chunks, pieces := chunks + [chunk], pieces + [piece];
    }
  }

  lemma CloseChunk(maximum: nat, pieces: seq<seq<string>>, chunks: seq<string>, piece: seq<string>)
    requires Cut(maximum, pieces, chunks) && Fits(maximum, piece)
    requires pieces != [] ==> Full(maximum, pieces[|pieces| - 1], piece[0])
    ensures Flatten(pieces + [piece]) == Flatten(pieces) + piece
    ensures Cut(maximum, pieces + [piece], chunks + [Chunk(piece)])
  {
    assert (pieces + [piece])[..|pieces|] == pieces;
    assert (chunks + [Chunk(piece)])[..|pieces|] == chunks;
  }

  /** A framed line is found in some chunk exactly when it is one of the tuples. */
  lemma ChunksMembership(tuples: seq<string>, maximum: nat, pieces: seq<seq<string>>, chunks: seq<string>, line: string)
    requires Chunked(tuples, maximum, pieces, chunks) && AllFree(tuples, NL) && Free(line, NL)
    ensures (exists k | 0 <= k < |chunks| :: Contains(chunks[k], Framed(line))) <==> line in tuples
  {
    InFlatten(pieces, line);
    forall k | 0 <= k < |pieces| ensures Contains(chunks[k], Framed(line)) <==> line in pieces[k] {
      CutAt(maximum, pieces, chunks, k);
      forall m | 0 <= m < |pieces[k]| ensures Free(pieces[k][m], NL) {
        InFlatten(pieces, pieces[k][m]);
        assert pieces[k][m] in tuples;
      }
      ChunkMembership(pieces[k], line);
    }
    if line in tuples {
      var k :| 0 <= k < |pieces| && line in pieces[k];
      assert Contains(chunks[k], Framed(line));
    }
  }

  /* ---------- raw-string blobs ---------- */

  /** Each entry between newlines of its own. */
  function Blob(entries: seq<string>): string {
    if entries == [] then "" else Framed(entries[0]) + Blob(entries[1..])
  }

  /** The lines of a blob: entries, with an empty line before, between and after. */
  function BlobLines(entries: seq<string>): seq<string> {
    if entries == [] then [""] else ["", entries[0]] + BlobLines(entries[1..])
  }

  lemma {:induction false} BlobIsJoin(entries: seq<string>)
    ensures Blob(entries) == Join(BlobLines(entries), NL)
  {
    if entries != [] {
      BlobIsJoin(entries[1..]);
      var rest := BlobLines(entries[1..]);
      JoinConcat(["", entries[0]], rest, NL);
      assert ["", entries[0]][1..] == [entries[0]];
      assert Join(["", entries[0]], NL) == "\n" + entries[0];
    }
  }

  lemma {:induction false} BlobLinesExact(entries: seq<string>)
    ensures |BlobLines(entries)| == 2 * |entries| + 1
    ensures forall k | 0 <= k <= |entries| :: BlobLines(entries)[2 * k] == ""
    ensures forall k | 0 <= k < |entries| :: BlobLines(entries)[2 * k + 1] == entries[k]
  {
    if entries != [] {
      BlobLinesExact(entries[1..]);
      var rest := BlobLines(entries[1..]);
      forall k | 0 <= k <= |entries| ensures BlobLines(entries)[2 * k] == "" {
        if k > 0 {
          assert rest[2 * (k - 1)] == "";
        }
      }
      forall k | 0 <= k < |entries| ensures BlobLines(entries)[2 * k + 1] == entries[k] {
        if k > 0 {
          assert rest[2 * (k - 1) + 1] == entries[1..][k - 1];
        }
      }
    }
  }

  /** Splitting a blob gives its lines. */
  lemma BlobSplits(entries: seq<string>)
    requires AllFree(entries, NL)
    ensures Split(Blob(entries), NL) == BlobLines(entries)
  {
    var lines := BlobLines(entries);
    BlobIsJoin(entries);
    BlobLinesExact(entries);
    forall k | 0 <= k < |lines| ensures Free(lines[k], NL) {
      var half := k / 2;
      if k == 2 * half {
        assert lines[2 * half] == "";
      } else {
        assert k == 2 * half + 1 && lines[2 * half + 1] == entries[half];
      }
    }
    SplitJoin(lines, NL);
  }

  /** A framed nonempty line is found in a blob exactly when it is one of its entries. */
  lemma BlobMembership(entries: seq<string>, line: string)
    requires AllFree(entries, NL) && Free(line, NL) && line != ""
    ensures Contains(Blob(entries), Framed(line)) <==> line in entries
  {
    var lines := BlobLines(entries);
    BlobLinesExact(entries);
    BlobSplits(entries);
    FramedExact(Blob(entries), line);
    if line in entries {
      var k :| 0 <= k < |entries| && entries[k] == line;
      assert lines[2 * k + 1] == line;
    }
    if InteriorLine(Blob(entries), line) {
      var k :| 0 < k < |lines| - 1 && lines[k] == line;
      assert k == 2 * (k / 2) || k == 2 * (k / 2) + 1;
      assert entries[k / 2] == line;
    }
  }
}
