/** The word chunking of `StaggerText` in src/components/landing/animated-text.tsx:
    the text is split on single spaces and every `chunkSize` consecutive
    words are joined back into one animated piece. */
module StaggerText {
  import opened Strings
  import opened Arithmetic

  /** The prop's default. */
  const DefaultChunkSize := 1

  function Min(a: int, b: int): int {
    if a <= b then a else b
  }

  /** The words cut into consecutive groups of `size`, the last one
      possibly shorter. */
  function Groups(words: seq<string>, size: nat): seq<seq<string>>
    requires size >= 1
    decreases |words|
  {
    if words == [] then []
    else if |words| <= size then [words]
    else [words[..size]] + Groups(words[size..], size)
  }

  /** Each group joined with single spaces. */
  function JoinEach(groups: seq<seq<string>>): (r: seq<string>)
    ensures |r| == |groups|
  {
    if groups == [] then [] else [Join(groups[0], ' ')] + JoinEach(groups[1..])
  }

  /** How many chunks the loop makes: the ceiling of words over chunk size. */
  function ChunkCount(n: nat, size: nat): nat
    requires size >= 1
  {
    (n + size - 1) / size
  }

  /** The `for` loop over `text.split(" ")`: the counter steps by the chunk
      size and each step pushes the next group joined with spaces. Joining
      the chunks with spaces gives the text back. */
  method Chunk(text: string, chunkSize: nat := DefaultChunkSize) returns (chunks: seq<string>)
    requires chunkSize >= 1
    ensures chunks == JoinEach(Groups(Split(text, ' '), chunkSize))
    ensures |chunks| == ChunkCount(|Split(text, ' ')|, chunkSize)
    ensures Join(chunks, ' ') == text
    ensures chunkSize == 1 ==> chunks == Split(text, ' ')
  {
    var words := Split(text, ' ');
    chunks := [];
    var i := 0;
    ghost var remaining := words;
    while i < |words|
      invariant 0 <= i
      invariant remaining == words[Min(i, |words|)..]
      invariant chunks + JoinEach(Groups(remaining, chunkSize)) == JoinEach(Groups(words, chunkSize))
      decreases |words| - i
    {
      var group := words[i..Min(i + chunkSize, |words|)];
      NextChunk(words, i, chunkSize);
      remaining := words[Min(i + chunkSize, |words|)..];
      chunks := chunks + [Join(group, ' ')];
      i := i + chunkSize;
    }
    assert remaining == [];
    ChunksOfText(text, chunkSize);
    if chunkSize == 1 {
      SingleWordChunks(words);
    }
  }

  /** One turn of the loop: the chunks still to come from position `i` are
      the group starting there followed by those after it. */
  lemma NextChunk(words: seq<string>, i: nat, size: nat)
    requires size >= 1 && i < |words|
    ensures JoinEach(Groups(words[i..], size))
      == [Join(words[i..Min(i + size, |words|)], ' ')]
         + JoinEach(Groups(words[Min(i + size, |words|)..], size))
  {
    var end := Min(i + size, |words|);
    var group, rest := words[i..end], words[end..];
    GroupsStep(words[i..], size);
    assert words[i..][..Min(size, |words| - i)] == group;
    assert words[i..][Min(size, |words| - i)..] == rest;
    var restGroups := Groups(rest, size);
    assert ([group] + restGroups)[1..] == restGroups;
  }

  /** The chunks of a text are as many as `ChunkCount` says and join back to it. */
  lemma ChunksOfText(text: string, size: nat)
    requires size >= 1
    ensures |JoinEach(Groups(Split(text, ' '), size))| == ChunkCount(|Split(text, ' ')|, size)
    ensures Join(JoinEach(Groups(Split(text, ' '), size)), ' ') == text
  {
    var words := Split(text, ' ');
    GroupsCount(words, size);
    GroupsJoin(words, size);
    JoinSplit(text, ' ');
  }

  /** The first group of a non-empty list and what follows it. */
  lemma GroupsStep(words: seq<string>, size: nat)
    requires size >= 1 && words != []
    ensures Groups(words, size)
      == [words[..Min(size, |words|)]] + Groups(words[Min(size, |words|)..], size)
  {
    if |words| <= size {
      assert words[..|words|] == words;
      assert words[|words|..] == [];
    }
  }

  /** There are as many groups as the loop makes chunks. */
  lemma {:induction false} GroupsCount(words: seq<string>, size: nat)
    requires size >= 1
    ensures |Groups(words, size)| == ChunkCount(|words|, size)
    decreases |words|
  {
    var n := |words|;
    if words == [] {
      DivUnique(size - 1, size, 0, size - 1);
    } else if n <= size {
      DivUnique(n + size - 1, size, 1, n - 1);
    } else {
      GroupsCount(words[size..], size);
      var q := ChunkCount(n - size, size);
      var r := (n - size + size - 1) % size;
      assert n - size + size - 1 == size * q + r;
      DivUnique(n + size - 1, size, q + 1, r);
    }
  }

  /** Every group but the last has exactly `size` words and the last one has
      between 1 and `size`. */
  lemma {:induction false} GroupSizes(words: seq<string>, size: nat)
    requires size >= 1
    ensures var g := Groups(words, size);
      && (forall j :: 0 <= j < |g| - 1 ==> |g[j]| == size)
      && (g != [] ==> 1 <= |g[|g| - 1]| <= size)
    decreases |words|
  {
    if |words| > size {
      GroupSizes(words[size..], size);
      var g := Groups(words, size);
      var rest := Groups(words[size..], size);
      assert g[1..] == rest;
      assert rest != [] by {
        assert Groups(words[size..], size) == rest;
      }
    }
  }

  /** The groups, joined each and then all, give the words joined. */
  lemma {:induction false} GroupsJoin(words: seq<string>, size: nat)
    requires size >= 1 && words != []
    ensures Join(JoinEach(Groups(words, size)), ' ') == Join(words, ' ')
    decreases |words|
  {
    if |words| > size {
      var head, tail := words[..size], words[size..];
      GroupsJoin(tail, size);
      var rest := JoinEach(Groups(tail, size));
      assert JoinEach(Groups(words, size)) == [Join(head, ' ')] + rest;
      JoinAppend([Join(head, ' ')], rest, ' ');
      JoinAppend(head, tail, ' ');
      assert head + tail == words;
    }
  }

  /** With one word per chunk, the chunks are the words. */
  lemma {:induction false} SingleWordChunks(words: seq<string>)
    ensures JoinEach(Groups(words, 1)) == words
    decreases |words|
  {
    if words != [] {
      SingleWordChunks(words[1..]);
      if |words| > 1 {
        assert Groups(words, 1) == [words[..1]] + Groups(words[1..], 1);
        assert Join(words[..1], ' ') == words[0];
      }
    }
  }
}
