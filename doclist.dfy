/**
 * The `/docs` command (bot.py, `list_docs`): the files under `input/`,
 * sorted case-insensitively, numbered from 1 and sent as one or more
 * messages, each flushed as soon as its lines weigh more than 3500.
 */
module DocList {
  import opened Wrappers
  import opened Strings
  import opened Seqs

  const FlushThreshold := 3500
  const NoFolderReply := "No documents folder."
  const NoDocumentsReply := "No documents found."

  // ---------------------------------------------------------------- sorting

  /** The sort key `str.lower`. */
  function Key(name: string): string {
    Lower(name)
  }

  /** Ordered by key: every name's key is at most every later name's key. */
  predicate SortedByKey(names: seq<string>) {
    forall i, j :: 0 <= i < j < |names| ==> LexLe(Key(names[i]), Key(names[j]))
  }

  /** Inserts `x` before the first name whose key is not smaller than its own. */
  function Insert(x: string, sorted: seq<string>): (r: seq<string>)
    ensures multiset(r) == multiset(sorted) + multiset{x}
  {
    if sorted == [] || LexLe(Key(x), Key(sorted[0])) then [x] + sorted
    else
      assert sorted == [sorted[0]] + sorted[1..];
      [sorted[0]] + Insert(x, sorted[1..])
  }

  /** `sorted(names, key=str.lower)`: an insertion sort, which is stable as Python's sort is. */
  function SortByLower(names: seq<string>): (r: seq<string>)
    ensures multiset(r) == multiset(names)
    ensures |r| == |names|
  {
    if names == [] then []
    else
      assert names == [names[0]] + names[1..];
      Insert(names[0], SortByLower(names[1..]))
  }

  lemma {:induction false} InsertSorted(x: string, sorted: seq<string>)
    requires SortedByKey(sorted)
    ensures SortedByKey(Insert(x, sorted))
    decreases |sorted|
  {
    if sorted != [] {
      var r := Insert(x, sorted);
      if LexLe(Key(x), Key(sorted[0])) {
        forall i, j | 0 <= i < j < |r| ensures LexLe(Key(r[i]), Key(r[j])) {
          if i == 0 && j > 1 {
            LexLeTrans(Key(x), Key(sorted[0]), Key(sorted[j - 1]));
          }
        }
      } else {
        LexLeTotal(Key(x), Key(sorted[0]));
        var rest := Insert(x, sorted[1..]);
        InsertSorted(x, sorted[1..]);
        forall y | y in rest ensures LexLe(Key(sorted[0]), Key(y)) {
          assert y in multiset(rest);
          if y != x {
            assert y in sorted[1..];
            var m :| 0 <= m < |sorted[1..]| && sorted[1..][m] == y;
            assert sorted[m + 1] == y;
          }
        }
        forall i, j | 0 <= i < j < |r| ensures LexLe(Key(r[i]), Key(r[j])) {
          if i == 0 {
            assert r[j] == rest[j - 1];
            assert r[j] in rest;
          } else {
            assert r[i] == rest[i - 1] && r[j] == rest[j - 1];
          }
        }
      }
    }
  }

  /** The sorted list is in key order. */
  lemma {:induction false} SortSorted(names: seq<string>)
    ensures SortedByKey(SortByLower(names))
    decreases |names|
  {
    if names != [] {
      SortSorted(names[1..]);
      InsertSorted(names[0], SortByLower(names[1..]));
    }
  }

  /** The names whose key is `k`. */
  function HasKey(k: string): string -> bool {
    name => Key(name) == k
  }

  lemma {:induction false} InsertStable(x: string, sorted: seq<string>, k: string)
    ensures Filter(Insert(x, sorted), HasKey(k))
         == (if Key(x) == k then [x] else []) + Filter(sorted, HasKey(k))
    decreases |sorted|
  {
    if sorted == [] || LexLe(Key(x), Key(sorted[0])) {
      assert ([x] + sorted)[1..] == sorted;
    } else {
      var rest := Insert(x, sorted[1..]);
      assert ([sorted[0]] + rest)[1..] == rest;
      InsertStable(x, sorted[1..], k);
      if Key(x) == k {
        LexLeRefl(k);
        assert Key(sorted[0]) != k;
      }
    }
  }

  /** Stability: the names sharing one key keep their input order. */
  lemma {:induction false} SortStable(names: seq<string>, k: string)
    ensures Filter(SortByLower(names), HasKey(k)) == Filter(names, HasKey(k))
    decreases |names|
  {
    if names != [] {
      SortStable(names[1..], k);
      InsertStable(names[0], SortByLower(names[1..]), k);
    }
  }

  // ---------------------------------------------------------------- numbering and weight

  /** The line `f"{i}. {name}"`. */
  function NumberedLine(i: nat, name: string): string {
    Decimal(i) + ". " + name
  }

  /** `[f"{i}. {f}" for i, f in enumerate(names, 1)]`. */
  function Numbered(names: seq<string>): (lines: seq<string>)
    ensures |lines| == |names|
  {
    seq(|names|, k requires 0 <= k < |names| => NumberedLine(k + 1, names[k]))
  }

  /** `sum(len(x) + 1 for x in buf)`: the length of the lines joined, plus one. */
  function Weight(buf: seq<string>): nat {
    if buf == [] then 0 else |buf[0]| + 1 + Weight(buf[1..])
  }

  lemma {:induction false} WeightAppend(a: seq<string>, b: seq<string>)
    ensures Weight(a + b) == Weight(a) + Weight(b)
    decreases |a|
  {
    if a == [] {
      assert a + b == b;
    } else {
      assert (a + b)[1..] == a[1..] + b;
      WeightAppend(a[1..], b);
    }
  }

  /** A prefix weighs no more than the whole. */
  lemma WeightPrefix(buf: seq<string>, j: nat)
    requires j <= |buf|
    ensures Weight(buf[..j]) <= Weight(buf)
  {
    assert buf == buf[..j] + buf[j..];
    WeightAppend(buf[..j], buf[j..]);
  }

  /** The message `"\n".join(buf)`. */
  function JoinLines(buf: seq<string>): string {
    Join(buf, "\n")
  }

  /** A message is one character shorter than the weight of its lines. */
  lemma {:induction false} MessageLength(buf: seq<string>)
    requires buf != []
    ensures |JoinLines(buf)| + 1 == Weight(buf)
    decreases |buf|
  {
    if |buf| > 1 {
      MessageLength(buf[1..]);
    }
  }

  // ---------------------------------------------------------------- chunking

  /**
   * How the loop splits `lines` over messages: laid end to end the chunks
   * are the lines; each chunk is non-empty and weighs at most the threshold
   * without its last line; every chunk but the last weighs more than the
   * threshold (it was flushed inside the loop). The last one either was
   * flushed the same way or is the remainder flushed after the loop.
   */
  ghost predicate IsChunking(lines: seq<string>, chunks: seq<seq<string>>) {
    && Concat(chunks) == lines
    && (forall k :: 0 <= k < |chunks| ==>
          chunks[k] != [] && Weight(chunks[k][..|chunks[k]| - 1]) <= FlushThreshold)
    && (forall k :: 0 <= k < |chunks| - 1 ==> Weight(chunks[k]) > FlushThreshold)
  }

  /**
   * The handler: `None` when `input/` is not a directory, else the paths of
   * the files `os.walk` finds under it, relative to `input/`, in walk order.
   */
  method ListDocs(folder: Option<seq<string>>) returns (msgs: seq<string>, ghost chunks: seq<seq<string>>)
    ensures folder.None? ==> msgs == [NoFolderReply]
    ensures folder == Some([]) ==> msgs == [NoDocumentsReply]
    ensures folder.Some? && folder.value != [] ==>
              IsChunking(Numbered(SortByLower(folder.value)), chunks)
              && msgs == Map(chunks, JoinLines)
    ensures forall k :: 0 <= k < |msgs| ==> msgs[k] != []
  {
    chunks := [];
    if folder.None? {
      return [NoFolderReply], chunks;
    }
    var files := folder.value;
    if files == [] {
      return [NoDocumentsReply], chunks;
    }
    var sorted := SortByLower(files);
    msgs, chunks := ChunkMessages(sorted);
  }

  /**
   * The numbering and flushing loop: each numbered line is appended to the
   * buffer, and the buffer is sent and emptied as soon as it weighs more
   * than the threshold; what is left is sent after the loop.
   */
  method ChunkMessages(names: seq<string>) returns (msgs: seq<string>, ghost chunks: seq<seq<string>>)
    ensures IsChunking(Numbered(names), chunks)
    ensures msgs == Map(chunks, JoinLines)
    ensures forall k :: 0 <= k < |msgs| ==> msgs[k] != []
  {
    ghost var lines := Numbered(names);
    var buf: seq<string> := [];
    msgs, chunks := [], [];
    for i := 0 to |names|
      invariant Pending(lines[..i], chunks, buf, msgs)
      invariant Weight(buf) <= FlushThreshold
    {
      var line := NumberedLine(i + 1, names[i]);
      assert lines[..i + 1] == lines[..i] + [line];
      AppendLine(lines[..i], chunks, buf, line);
      buf := buf + [line];
      if Weight(buf) > FlushThreshold {
        FlushKeeps(lines[..i + 1], chunks, buf, msgs);
        msgs := msgs + [JoinLines(buf)];
        chunks := chunks + [buf];
        buf := [];
      }
    }
    assert lines[..|names|] == lines;
    if buf != [] {
      FlushLast(lines, chunks, buf, msgs);
      msgs := msgs + [JoinLines(buf)];
      chunks := chunks + [buf];
    } else {
      NothingPending(lines, chunks, msgs);
    }
  }

  /** A chunk sent inside the loop: it went over the threshold with its last line and not before. */
  ghost predicate Flushed(chunk: seq<string>) {
    chunk != [] && Weight(chunk[..|chunk| - 1]) <= FlushThreshold && Weight(chunk) > FlushThreshold
  }

  /**
   * The loop's state after the lines `prefix`: the sent chunks and the
   * buffer are those lines, and what was sent is consistent.
   */
  ghost predicate Pending(prefix: seq<string>, chunks: seq<seq<string>>, buf: seq<string>, msgs: seq<string>) {
    && Concat(chunks) + buf == prefix
    && (forall k :: 0 <= k < |buf| ==> buf[k] != [])
    && Sent(chunks, msgs)
  }

  /** Every chunk sent so far went over the threshold with its last line, and each message is the join of its chunk. */
  ghost predicate Sent(chunks: seq<seq<string>>, msgs: seq<string>) {
    && (forall k :: 0 <= k < |chunks| ==> Flushed(chunks[k]))
    && msgs == Map(chunks, JoinLines)
    && (forall k :: 0 <= k < |msgs| ==> msgs[k] != [])
  }

  /** Appending a non-empty line to a buffer within the threshold keeps the state consistent. */
  lemma AppendLine(prefix: seq<string>, chunks: seq<seq<string>>, buf: seq<string>, line: string)
    requires Concat(chunks) + buf == prefix && (forall k :: 0 <= k < |buf| ==> buf[k] != [])
    requires line != []
    ensures Concat(chunks) + (buf + [line]) == prefix + [line]
    ensures forall k :: 0 <= k < |buf| + 1 ==> (buf + [line])[k] != []
    ensures (buf + [line])[..|buf|] == buf
    ensures Weight(buf + [line]) == Weight(buf) + |line| + 1
  {
    WeightAppend(buf, [line]);
    var next := buf + [line];
    assert next[..|buf|] == buf;
    assert Concat(chunks) + next == (Concat(chunks) + buf) + [line];
    assert forall k :: 0 <= k < |next| ==> next[k] == if k < |buf| then buf[k] else line;
  }

  /** Sending a buffer that just went over the threshold keeps the state consistent. */
  lemma FlushKeeps(prefix: seq<string>, chunks: seq<seq<string>>, buf: seq<string>, msgs: seq<string>)
    requires Pending(prefix, chunks, buf, msgs) && Flushed(buf)
    ensures Pending(prefix, chunks + [buf], [], msgs + [JoinLines(buf)])
  {
    SentMessage(chunks, buf, msgs);
    ConcatSnoc(chunks, buf);
  }

  /** Sending the remainder after the loop finishes a chunking of all the lines. */
  lemma FlushLast(lines: seq<string>, chunks: seq<seq<string>>, buf: seq<string>, msgs: seq<string>)
    requires Pending(lines, chunks, buf, msgs) && Weight(buf) <= FlushThreshold && buf != []
    ensures IsChunking(lines, chunks + [buf])
    ensures msgs + [JoinLines(buf)] == Map(chunks + [buf], JoinLines)
    ensures forall k :: 0 <= k < |msgs| + 1 ==> (msgs + [JoinLines(buf)])[k] != []
  {
    WeightPrefix(buf, |buf| - 1);
    SentMessage(chunks, buf, msgs);
    ConcatSnoc(chunks, buf);
    LastChunk(chunks, buf);
  }

  /** A remainder within the threshold may close a run of flushed chunks. */
  lemma LastChunk(chunks: seq<seq<string>>, buf: seq<string>)
    requires forall k :: 0 <= k < |chunks| ==> Flushed(chunks[k])
    requires buf != [] && Weight(buf[..|buf| - 1]) <= FlushThreshold
    ensures forall k :: 0 <= k < |chunks| + 1 ==>
              (chunks + [buf])[k] != [] && Weight((chunks + [buf])[k][..|(chunks + [buf])[k]| - 1]) <= FlushThreshold
    ensures forall k :: 0 <= k < |chunks| ==> Weight((chunks + [buf])[k]) > FlushThreshold
  {
    var c := chunks + [buf];
    forall k | 0 <= k < |c|
      ensures c[k] != [] && Weight(c[k][..|c[k]| - 1]) <= FlushThreshold
    {
      if k < |chunks| {
        assert c[k] == chunks[k] && Flushed(chunks[k]);
      }
    }
  }

  /** With nothing left in the buffer, the sent chunks are a chunking of all the lines. */
  lemma NothingPending(lines: seq<string>, chunks: seq<seq<string>>, msgs: seq<string>)
    requires Pending(lines, chunks, [], msgs)
    ensures IsChunking(lines, chunks)
  {
    assert Concat(chunks) + [] == Concat(chunks);
    forall k | 0 <= k < |chunks|
      ensures chunks[k] != [] && Weight(chunks[k][..|chunks[k]| - 1]) <= FlushThreshold
    {
      assert Flushed(chunks[k]);
    }
  }

  /** Sending a non-empty buffer of numbered lines sends a non-empty message. */
  lemma SentMessage(chunks: seq<seq<string>>, buf: seq<string>, msgs: seq<string>)
    requires buf != [] && buf[0] != []
    requires msgs == Map(chunks, JoinLines)
    ensures msgs + [JoinLines(buf)] == Map(chunks + [buf], JoinLines)
    ensures JoinLines(buf) != []
  {
    MapAppend(chunks, [buf], JoinLines);
    MessageLength(buf);
    assert Weight(buf) >= |buf[0]| + 1;
  }

  // ---------------------------------------------------------------- properties

  /** Within every chunk, every proper prefix weighs at most the threshold. */
  lemma ChunkPrefixesWithin(lines: seq<string>, chunks: seq<seq<string>>, k: nat, j: nat)
    requires IsChunking(lines, chunks)
    requires k < |chunks| && j < |chunks[k]|
    ensures Weight(chunks[k][..j]) <= FlushThreshold
  {
    var c := chunks[k];
    WeightPrefix(c[..|c| - 1], j);
    assert c[..|c| - 1][..j] == c[..j];
  }

  /**
   * The length of the first chunk, searched from prefix length `n`: the
   * shortest prefix that weighs more than the threshold, or all the lines.
   */
  function FirstCut(lines: seq<string>, n: nat): nat
    decreases |lines| - n
  {
    if n >= |lines| then |lines|
    else if Weight(lines[..n + 1]) > FlushThreshold then n + 1
    else FirstCut(lines, n + 1)
  }

  lemma {:induction false} FirstCutIs(lines: seq<string>, n: nat, m: nat)
    requires n < m <= |lines|
    requires forall j :: n < j < m ==> Weight(lines[..j]) <= FlushThreshold
    requires m == |lines| || Weight(lines[..m]) > FlushThreshold
    ensures FirstCut(lines, n) == m
    decreases m - n
  {
    if n + 1 < m {
      FirstCutIs(lines, n + 1, m);
    }
  }

  /** The first chunk of any chunking is the first cut of the lines. */
  lemma FirstChunkIsCut(lines: seq<string>, chunks: seq<seq<string>>)
    requires IsChunking(lines, chunks) && chunks != []
    ensures |chunks[0]| == FirstCut(lines, 0)
  {
    var a := chunks[0];
    assert lines == a + Concat(chunks[1..]);
    forall j | 0 < j < |a| ensures Weight(lines[..j]) <= FlushThreshold {
      assert lines[..j] == a[..j];
      ChunkPrefixesWithin(lines, chunks, 0, j);
    }
    if |chunks| == 1 {
      assert Concat(chunks[1..]) == [];
    } else {
      assert lines[..|a|] == a;
    }
    FirstCutIs(lines, 0, |a|);
  }

  lemma NoChunksIffNoLines(lines: seq<string>, chunks: seq<seq<string>>)
    requires IsChunking(lines, chunks)
    ensures chunks == [] <==> lines == []
  {
    if chunks != [] {
      assert lines == chunks[0] + Concat(chunks[1..]);
    }
  }

  /** After its first chunk, a chunking goes on as a chunking of the remaining lines. */
  lemma ChunkingTail(lines: seq<string>, chunks: seq<seq<string>>)
    requires IsChunking(lines, chunks) && chunks != []
    ensures |chunks[0]| <= |lines| && lines[..|chunks[0]|] == chunks[0]
    ensures IsChunking(lines[|chunks[0]|..], chunks[1..])
  {
    var a := chunks[0];
    assert lines == a + Concat(chunks[1..]);
    assert lines[..|a|] == a && lines[|a|..] == Concat(chunks[1..]);
  }

  /** Only one chunking satisfies the flushing rule: the messages are determined by the lines. */
  lemma {:induction false} ChunkingUnique(lines: seq<string>, c1: seq<seq<string>>, c2: seq<seq<string>>)
    requires IsChunking(lines, c1) && IsChunking(lines, c2)
    ensures c1 == c2
    decreases |lines|
  {
    NoChunksIffNoLines(lines, c1);
    NoChunksIffNoLines(lines, c2);
    if c1 != [] && c2 != [] {
      FirstChunkIsCut(lines, c1);
      FirstChunkIsCut(lines, c2);
      ChunkingTail(lines, c1);
      ChunkingTail(lines, c2);
      var n := |c1[0]|;
      ChunkingUnique(lines[n..], c1[1..], c2[1..]);
      assert c1 == [c1[0]] + c1[1..] && c2 == [c2[0]] + c2[1..];
    }
  }
}
