/** The chunker of retrieve.py: `recursive_chunk` splits one page's text
    with a cascade of separators, `chunk_text` applies it page by page and
    tags every chunk with its page.

    `Chunks`, `PartChunks` and `ChunkParts` state what the code computes;
    `RecursiveChunk` and `ChunkText` are the code's loops, proved to compute
    exactly that; the lemmas state what the result means. */
module Chunker {
  import opened Outcomes
  import opened PyStr
  import opened JsonData

  /** `chunk_text`'s defaults. */
  const DefaultMaxLen: int := 1200
  const DefaultSeparators: seq<string> := ["\n\n", ".", "\n"]

  // ---------------------------------------------------------------------
  // recursive_chunk
  // ---------------------------------------------------------------------

  /** What `recursive_chunk(text, separators, max_len)` returns, or the
      exception it raises. */
  function Chunks(text: string, separators: seq<string>, maxLen: int): Result<seq<string>>
    decreases |separators|, 0, 0
  {
    var t := Strip(text);
    if |t| <= maxLen || separators == [] then Ok([t])
    else if separators[0] == "" then Err(EmptySeparator)
    else ChunkParts(Split(t, separators[0]), separators[1..], maxLen)
  }

  /** One turn of the loop over the parts: strip the part, drop it when
      empty, chunk it again with the remaining separators when it is still
      longer than `maxLen`, keep it otherwise. */
  function PartChunks(part: string, rest: seq<string>, maxLen: int): Result<seq<string>>
    decreases |rest|, 1, 0
  {
    var p := Strip(part);
    if p == "" then Ok([])
    else if |p| > maxLen then Chunks(p, rest, maxLen)
    else Ok([p])
  }

  /** The whole loop over the parts, left to right. */
  function ChunkParts(parts: seq<string>, rest: seq<string>, maxLen: int): Result<seq<string>>
    decreases |rest|, 1, |parts|
  {
    if parts == [] then Ok([])
    else
      match PartChunks(parts[0], rest, maxLen)
      case Err(e) => Err(e)
      case Ok(head) => Then(head, ChunkParts(parts[1..], rest, maxLen))
  }

  lemma ThenNil<T>(r: Result<seq<T>>)
    ensures Then([], r) == r
  {
    if r.Ok? {
      assert [] + r.value == r.value;
    }
  }

  lemma ThenThen<T>(a: seq<T>, b: seq<T>, r: Result<seq<T>>)
    ensures Then(a, Then(b, r)) == Then(a + b, r)
  {
    if r.Ok? {
      assert a + (b + r.value) == (a + b) + r.value;
    }
  }

  /** `Chunks` unfolded once, with the split named. */
  lemma ChunksStep(text: string, separators: seq<string>, maxLen: int)
    requires |Strip(text)| > maxLen && separators != [] && separators[0] != ""
    ensures Chunks(text, separators, maxLen)
            == ChunkParts(Split(Strip(text), separators[0]), separators[1..], maxLen)
  {
  }

  /** `ChunkParts` on `parts[i..]` unfolded once. */
  lemma ChunkPartsStep(parts: seq<string>, i: int, rest: seq<string>, maxLen: int)
    requires 0 <= i < |parts|
    ensures ChunkParts(parts[i..], rest, maxLen)
            == match PartChunks(parts[i], rest, maxLen)
               case Err(e) => Err(e)
               case Ok(head) => Then(head, ChunkParts(parts[i + 1..], rest, maxLen))
  {
    assert parts[i..][0] == parts[i] && parts[i..][1..] == parts[i + 1..];
  }

  /** `recursive_chunk`: the loop appends to `chunks` and recurses on long
      parts with `separators[1:]`, which is what makes it terminate. */
  method RecursiveChunk(text: string, separators: seq<string>, maxLen: int)
    returns (r: Result<seq<string>>)
    ensures r == Chunks(text, separators, maxLen)
    decreases |separators|
  {
    var t := Strip(text);
    if |t| <= maxLen || |separators| == 0 {
      return Ok([t]);
    }
    var sep := separators[0];
    if sep == "" {
      // str.split raises ValueError on an empty separator
      return Err(EmptySeparator);
    }
    var rest := separators[1..];
    var parts := Split(t, sep);
    ChunksStep(text, separators, maxLen);
    var chunks: seq<string> := [];
    var i := 0;
    assert parts[0..] == parts;
    ThenNil(ChunkParts(parts, rest, maxLen));
    assert ChunkParts(parts, rest, maxLen) == Then(chunks, ChunkParts(parts[i..], rest, maxLen));
    while i < |parts|
      invariant 0 <= i <= |parts|
      invariant ChunkParts(parts, rest, maxLen) == Then(chunks, ChunkParts(parts[i..], rest, maxLen))
    {
      ChunkPartsStep(parts, i, rest, maxLen);
      var part := Strip(parts[i]);
      var added: seq<string>;
      if part == "" {
        added := [];
      } else if |part| > maxLen {
        var sub := RecursiveChunk(part, rest, maxLen);
        if sub.Err? {
          return Err(sub.error);
        }
        added := sub.value;
      } else {
        added := [part];
      }
      assert PartChunks(parts[i], rest, maxLen) == Ok(added);
      ghost var later := ChunkParts(parts[i + 1..], rest, maxLen);
      assert ChunkParts(parts[i..], rest, maxLen) == Then(added, later);
      ThenThen(chunks, added, later);
      chunks := chunks + added;
      i := i + 1;
      assert ChunkParts(parts, rest, maxLen) == Then(chunks, ChunkParts(parts[i..], rest, maxLen));
    }
    assert chunks + [] == chunks;
    return Ok(chunks);
  }

  // ---------------------------------------------------------------------
  // What the chunks mean
  // ---------------------------------------------------------------------

  /** `c` is a character of one of the separators. */
  ghost predicate SeparatorChar(c: char, separators: seq<string>)
  {
    exists j :: 0 <= j < |separators| && c in separators[j]
  }

  /** Text the chunker may throw away: whitespace and separator characters. */
  ghost predicate Droppable(g: string, separators: seq<string>)
  {
    forall k :: 0 <= k < |g| ==> IsWhitespace(g[k]) || SeparatorChar(g[k], separators)
  }

  ghost predicate AllDroppable(gaps: seq<string>, separators: seq<string>)
  {
    forall k :: 0 <= k < |gaps| ==> Droppable(gaps[k], separators)
  }

  /** `gaps[0] + cs[0] + gaps[1] + ... + cs[n - 1] + gaps[n]`. */
  function Interleave(gaps: seq<string>, cs: seq<string>): string
    requires |gaps| == |cs| + 1
    decreases |cs|
  {
    if cs == [] then gaps[0] else gaps[0] + cs[0] + Interleave(gaps[1..], cs[1..])
  }

  /** `s` is the chunks `cs`, in order and without overlap, with only
      droppable text before, between and after them. */
  ghost predicate Covers(s: string, cs: seq<string>, separators: seq<string>)
  {
    exists gaps :: |gaps| == |cs| + 1 && AllDroppable(gaps, separators) && Interleave(gaps, cs) == s
  }

  lemma DroppableConcat(a: string, b: string, separators: seq<string>)
    requires Droppable(a, separators) && Droppable(b, separators)
    ensures Droppable(a + b, separators)
  {
    forall k | 0 <= k < |a + b|
      ensures IsWhitespace((a + b)[k]) || SeparatorChar((a + b)[k], separators)
    {
      if k >= |a| {
        assert (a + b)[k] == b[k - |a|];
      }
    }
  }

  lemma WhitespaceDroppable(g: string, separators: seq<string>)
    requires AllWhitespace(g)
    ensures Droppable(g, separators)
  {
  }

  lemma SeparatorDroppable(separators: seq<string>)
    requires |separators| >= 1
    ensures Droppable(separators[0], separators)
  {
    forall k | 0 <= k < |separators[0]|
      ensures SeparatorChar(separators[0][k], separators)
    {
      assert separators[0][k] in separators[0];
    }
  }

  lemma DroppableWeaken(g: string, separators: seq<string>)
    requires |separators| >= 1 && Droppable(g, separators[1..])
    ensures Droppable(g, separators)
  {
    forall k | 0 <= k < |g| && !IsWhitespace(g[k])
      ensures SeparatorChar(g[k], separators)
    {
      var j :| 0 <= j < |separators[1..]| && g[k] in separators[1..][j];
      assert separators[1..][j] == separators[j + 1];
    }
  }

  /** Two interleavings side by side are one interleaving, with the last
      gap of the first and the first gap of the second merged. */
  lemma {:induction false} InterleaveAppend(ga: seq<string>, ca: seq<string>, gb: seq<string>, cb: seq<string>)
    requires |ga| == |ca| + 1 && |gb| == |cb| + 1
    ensures Interleave(ga, ca) + Interleave(gb, cb)
            == Interleave(ga[..|ca|] + [ga[|ca|] + gb[0]] + gb[1..], ca + cb)
    decreases |ca|
  {
    var g := ga[..|ca|] + [ga[|ca|] + gb[0]] + gb[1..];
    if ca == [] {
      assert ca + cb == cb;
      if cb == [] {
      } else {
        assert g[0] == ga[0] + gb[0] && g[1..] == gb[1..];
      }
    } else {
      InterleaveAppend(ga[1..], ca[1..], gb, cb);
      assert g[0] == ga[0];
      assert g[1..] == ga[1..][..|ca[1..]|] + [ga[1..][|ca[1..]|] + gb[0]] + gb[1..];
      assert (ca + cb)[0] == ca[0] && (ca + cb)[1..] == ca[1..] + cb;
    }
  }

  lemma CoversWhole(s: string, separators: seq<string>)
    ensures Covers(s, [s], separators)
  {
    var gaps := ["", ""];
    assert Interleave(gaps, [s]) == s by {
      assert Interleave(gaps[1..], []) == "";
    }
    assert AllDroppable(gaps, separators);
  }

  lemma CoversNone(g: string, separators: seq<string>)
    requires Droppable(g, separators)
    ensures Covers(g, [], separators)
  {
    assert Interleave([g], []) == g;
    assert AllDroppable([g], separators);
  }

  lemma CoversAppend(a: string, ca: seq<string>, b: string, cb: seq<string>,
                     separators: seq<string>)
    requires Covers(a, ca, separators) && Covers(b, cb, separators)
    ensures Covers(a + b, ca + cb, separators)
  {
    var ga :| |ga| == |ca| + 1 && AllDroppable(ga, separators) && Interleave(ga, ca) == a;
    var gb :| |gb| == |cb| + 1 && AllDroppable(gb, separators) && Interleave(gb, cb) == b;
    var mid := ga[|ca|] + gb[0];
    var g := ga[..|ca|] + [mid] + gb[1..];
    InterleaveAppend(ga, ca, gb, cb);
    DroppableConcat(ga[|ca|], gb[0], separators);
    forall k | 0 <= k < |g|
      ensures Droppable(g[k], separators)
    {
      if k < |ca| {
        assert g[k] == ga[k];
      } else if k == |ca| {
        assert g[k] == mid;
      } else {
        assert g[k] == gb[k - |ca|];
      }
    }
    assert |g| == |ca + cb| + 1 && AllDroppable(g, separators) && Interleave(g, ca + cb) == a + b;
  }

  lemma CoversPrepend(g: string, s: string, cs: seq<string>, separators: seq<string>)
    requires Droppable(g, separators) && Covers(s, cs, separators)
    ensures Covers(g + s, cs, separators)
  {
    CoversNone(g, separators);
    CoversAppend(g, [], s, cs, separators);
    assert [] + cs == cs;
  }

  lemma CoversWeaken(s: string, cs: seq<string>, separators: seq<string>)
    requires |separators| >= 1 && Covers(s, cs, separators[1..])
    ensures Covers(s, cs, separators)
  {
    var gaps :| |gaps| == |cs| + 1 && AllDroppable(gaps, separators[1..]) && Interleave(gaps, cs) == s;
    forall k | 0 <= k < |gaps|
      ensures Droppable(gaps[k], separators)
    {
      DroppableWeaken(gaps[k], separators);
    }
    assert AllDroppable(gaps, separators);
  }

  /** Droppable text around covered text is droppable. */
  lemma CoversAround(pre: string, r: string, post: string, cs: seq<string>, separators: seq<string>)
    requires Droppable(pre, separators) && Droppable(post, separators)
    requires Covers(r, cs, separators)
    ensures Covers(pre + r + post, cs, separators)
  {
    CoversPrepend(pre, r, cs, separators);
    CoversNone(post, separators);
    CoversAppend(pre + r, cs, post, [], separators);
    assert cs + [] == cs;
  }

  /** Whitespace around covered text is droppable. */
  lemma CoversStrip(s: string, cs: seq<string>, separators: seq<string>)
    requires Covers(Strip(s), cs, separators)
    ensures Covers(s, cs, separators)
  {
    var pre, post := StripAround(s);
    WhitespaceDroppable(pre, separators);
    WhitespaceDroppable(post, separators);
    CoversAround(pre, Strip(s), post, cs, separators);
  }

  /** Each chunk of an interleaving is a piece of it. */
  lemma {:induction false} InterleaveInfix(gaps: seq<string>, cs: seq<string>, k: int)
    requires |gaps| == |cs| + 1 && 0 <= k < |cs|
    ensures Contains(Interleave(gaps, cs), cs[k])
    decreases k
  {
    var s := Interleave(gaps, cs);
    var e := |gaps[0]| + |cs[0]|;
    assert s == gaps[0] + cs[0] + Interleave(gaps[1..], cs[1..]);
    if k == 0 {
      assert OccursAt(s, cs[0], |gaps[0]|);
    } else {
      InterleaveInfix(gaps[1..], cs[1..], k - 1);
      assert OccursAt(s, s[e..], e);
      assert s[e..] == Interleave(gaps[1..], cs[1..]);
      InfixTransitive(cs[k], s[e..], s);
    }
  }

  /** Each chunk of a cover is a piece of the covered text. */
  lemma CoversInfix(s: string, cs: seq<string>, separators: seq<string>, k: int)
    requires Covers(s, cs, separators) && 0 <= k < |cs|
    ensures Contains(s, cs[k])
  {
    var gaps :| |gaps| == |cs| + 1 && AllDroppable(gaps, separators) && Interleave(gaps, cs) == s;
    InterleaveInfix(gaps, cs, k);
  }

  // ---------------------------------------------------------------------
  // One unfolding of each specification function, on the success path
  // ---------------------------------------------------------------------

  /** A text that is split and chunked successfully. */
  lemma ChunksSplitOk(text: string, separators: seq<string>, maxLen: int)
    requires Chunks(text, separators, maxLen).Ok?
    requires |Strip(text)| > maxLen && separators != []
    ensures separators[0] != ""
    ensures ChunkParts(Split(Strip(text), separators[0]), separators[1..], maxLen).Ok?
    ensures Chunks(text, separators, maxLen).value
            == ChunkParts(Split(Strip(text), separators[0]), separators[1..], maxLen).value
  {
  }

  /** A non-empty list of parts chunked successfully: its first part's
      chunks, then the rest's. */
  lemma ChunkPartsOk(parts: seq<string>, rest: seq<string>, maxLen: int)
    requires parts != [] && ChunkParts(parts, rest, maxLen).Ok?
    ensures PartChunks(parts[0], rest, maxLen).Ok?
    ensures ChunkParts(parts[1..], rest, maxLen).Ok?
    ensures ChunkParts(parts, rest, maxLen).value
            == PartChunks(parts[0], rest, maxLen).value + ChunkParts(parts[1..], rest, maxLen).value
  {
  }

  /** `Join` of two or more parts, unfolded once. */
  lemma JoinCons(parts: seq<string>, sep: string)
    requires |parts| >= 2
    ensures Join(parts, sep) == parts[0] + (sep + Join(parts[1..], sep))
  {
  }

  /** The chunks of `text` appear in it left to right without overlap, and
      everything between, before and after them is whitespace or separator
      characters: no other text is dropped. */
  lemma {:induction false} ChunksCover(text: string, separators: seq<string>, maxLen: int)
    requires Chunks(text, separators, maxLen).Ok?
    ensures Covers(text, Chunks(text, separators, maxLen).value, separators)
    decreases |separators|, 0, 0
  {
    var t := Strip(text);
    if |t| <= maxLen || separators == [] {
      CoversWhole(t, separators);
    } else {
      ChunksSplitOk(text, separators, maxLen);
      var parts := Split(t, separators[0]);
      PartsCover(parts, separators, maxLen);
      SplitJoin(t, separators[0]);
    }
    CoversStrip(text, Chunks(text, separators, maxLen).value, separators);
  }

  lemma {:induction false} PartsCover(parts: seq<string>, separators: seq<string>, maxLen: int)
    requires |parts| >= 1 && |separators| >= 1
    requires ChunkParts(parts, separators[1..], maxLen).Ok?
    ensures Covers(Join(parts, separators[0]), ChunkParts(parts, separators[1..], maxLen).value, separators)
    decreases |separators[1..]|, 1, |parts|
  {
    var rest := separators[1..];
    ChunkPartsOk(parts, rest, maxLen);
    var head := PartChunks(parts[0], rest, maxLen).value;
    var tail := ChunkParts(parts[1..], rest, maxLen).value;
    PartCover(parts[0], separators, maxLen);
    if |parts| == 1 {
      assert tail == [] by {
        assert parts[1..] == [];
      }
      assert head + tail == head;
    } else {
      PartsCover(parts[1..], separators, maxLen);
      PartsCoverStep(parts, separators, head, tail);
    }
  }

  /** The last step of `PartsCover`: the first part's cover, the separator,
      and the rest's cover make a cover of the joined parts. */
  lemma PartsCoverStep(parts: seq<string>, separators: seq<string>, head: seq<string>, tail: seq<string>)
    requires |parts| >= 2 && |separators| >= 1
    requires Covers(parts[0], head, separators)
    requires Covers(Join(parts[1..], separators[0]), tail, separators)
    ensures Covers(Join(parts, separators[0]), head + tail, separators)
  {
    var sep := separators[0];
    var joined := Join(parts[1..], sep);
    SeparatorDroppable(separators);
    CoversPrepend(sep, joined, tail, separators);
    CoversAppend(parts[0], head, sep + joined, tail, separators);
    JoinCons(parts, sep);
  }

  lemma {:induction false} PartCover(part: string, separators: seq<string>, maxLen: int)
    requires |separators| >= 1 && PartChunks(part, separators[1..], maxLen).Ok?
    ensures Covers(part, PartChunks(part, separators[1..], maxLen).value, separators)
    decreases |separators[1..]|, 1, 0
  {
    var p := Strip(part);
    if p == "" {
      StripEmpty(part);
      WhitespaceDroppable(part, separators);
      CoversNone(part, separators);
    } else if |p| > maxLen {
      var cs := Chunks(p, separators[1..], maxLen).value;
      ChunksCover(p, separators[1..], maxLen);
      CoversWeaken(p, cs, separators);
      CoversStrip(part, cs, separators);
    } else {
      CoversWhole(p, separators);
      CoversStrip(part, [p], separators);
    }
  }

  /** Each chunk is a piece of the page text it came from. */
  lemma ChunkInfix(text: string, separators: seq<string>, maxLen: int, k: int)
    requires Chunks(text, separators, maxLen).Ok? && 0 <= k < |Chunks(text, separators, maxLen).value|
    ensures Contains(text, Chunks(text, separators, maxLen).value[k])
  {
    ChunksCover(text, separators, maxLen);
    CoversInfix(text, Chunks(text, separators, maxLen).value, separators, k);
  }

  // ---------------------------------------------------------------------
  // Short texts, stripped and non-empty chunks
  // ---------------------------------------------------------------------

  /** A text that fits, or an exhausted separator list, comes back whole
      and stripped, even when it is empty or still too long. */
  lemma ChunksShort(text: string, separators: seq<string>, maxLen: int)
    requires |Strip(text)| <= maxLen || separators == []
    ensures Chunks(text, separators, maxLen) == Ok([Strip(text)])
  {
  }

  /** A blank page gives one empty chunk, not none. */
  lemma ChunksBlank(text: string, separators: seq<string>, maxLen: int)
    requires AllWhitespace(text) && maxLen >= 0
    ensures Chunks(text, separators, maxLen) == Ok([""])
  {
    StripEmpty(text);
  }

  ghost predicate AllStripped(cs: seq<string>)
  {
    forall k :: 0 <= k < |cs| ==> Strip(cs[k]) == cs[k]
  }

  ghost predicate NoneEmpty(cs: seq<string>)
  {
    forall k :: 0 <= k < |cs| ==> cs[k] != ""
  }

  lemma CleanConcat(a: seq<string>, b: seq<string>)
    requires AllStripped(a) && NoneEmpty(a) && AllStripped(b) && NoneEmpty(b)
    ensures AllStripped(a + b) && NoneEmpty(a + b)
  {
    forall k | |a| <= k < |a + b|
      ensures (a + b)[k] == b[k - |a|]
    {
    }
  }

  /** Every chunk equals its own strip; once the text has been split, no
      chunk is empty. */
  lemma {:induction false} ChunksStripped(text: string, separators: seq<string>, maxLen: int)
    requires Chunks(text, separators, maxLen).Ok?
    ensures AllStripped(Chunks(text, separators, maxLen).value)
    ensures |Strip(text)| > maxLen && separators != [] ==> NoneEmpty(Chunks(text, separators, maxLen).value)
    decreases |separators|, 0, 0
  {
    var t := Strip(text);
    if |t| <= maxLen || separators == [] {
      StripIdempotent(text);
    } else {
      ChunksSplitOk(text, separators, maxLen);
      PartsStripped(Split(t, separators[0]), separators[1..], maxLen);
    }
  }

  lemma {:induction false} PartsStripped(parts: seq<string>, rest: seq<string>, maxLen: int)
    requires ChunkParts(parts, rest, maxLen).Ok?
    ensures AllStripped(ChunkParts(parts, rest, maxLen).value)
    ensures NoneEmpty(ChunkParts(parts, rest, maxLen).value)
    decreases |rest|, 1, |parts|
  {
    if parts != [] {
      ChunkPartsOk(parts, rest, maxLen);
      PartStripped(parts[0], rest, maxLen);
      PartsStripped(parts[1..], rest, maxLen);
      CleanConcat(PartChunks(parts[0], rest, maxLen).value, ChunkParts(parts[1..], rest, maxLen).value);
    }
  }

  lemma {:induction false} PartStripped(part: string, rest: seq<string>, maxLen: int)
    requires PartChunks(part, rest, maxLen).Ok?
    ensures AllStripped(PartChunks(part, rest, maxLen).value)
    ensures NoneEmpty(PartChunks(part, rest, maxLen).value)
    decreases |rest|, 1, 0
  {
    var p := Strip(part);
    StripIdempotent(part);
    if p != "" && |p| > maxLen {
      ChunksStripped(p, rest, maxLen);
    }
  }

  // ---------------------------------------------------------------------
  // Long chunks hold no separator
  // ---------------------------------------------------------------------

  /** No chunk longer than `maxLen` holds any of `separators`. */
  ghost predicate LongFree(cs: seq<string>, separators: seq<string>, maxLen: int)
  {
    forall k, j :: 0 <= k < |cs| && |cs[k]| > maxLen && 0 <= j < |separators|
                   ==> !Contains(cs[k], separators[j])
  }

  lemma LongFreeConcat(a: seq<string>, b: seq<string>, separators: seq<string>, maxLen: int)
    requires LongFree(a, separators, maxLen) && LongFree(b, separators, maxLen)
    ensures LongFree(a + b, separators, maxLen)
  {
    forall k | |a| <= k < |a + b|
      ensures (a + b)[k] == b[k - |a|]
    {
    }
  }

  lemma LongFreeExtend(cs: seq<string>, separators: seq<string>, maxLen: int)
    requires |separators| >= 1 && LongFree(cs, separators[1..], maxLen)
    requires forall k :: 0 <= k < |cs| ==> !Contains(cs[k], separators[0])
    ensures LongFree(cs, separators, maxLen)
  {
    forall k, j | 0 <= k < |cs| && |cs[k]| > maxLen && 1 <= j < |separators|
      ensures !Contains(cs[k], separators[j])
    {
      assert separators[j] == separators[1..][j - 1];
    }
  }

  /** A chunk that is still longer than `maxLen` survived a split on every
      separator, so it holds none of them. */
  lemma {:induction false} ChunksLong(text: string, separators: seq<string>, maxLen: int)
    requires Chunks(text, separators, maxLen).Ok?
    ensures LongFree(Chunks(text, separators, maxLen).value, separators, maxLen)
    decreases |separators|, 0, 0
  {
    var t := Strip(text);
    if |t| > maxLen && separators != [] {
      ChunksSplitOk(text, separators, maxLen);
      SplitPieces(t, separators[0]);
      PartsLong(Split(t, separators[0]), separators, maxLen);
    }
  }

  lemma {:induction false} PartsLong(parts: seq<string>, separators: seq<string>, maxLen: int)
    requires |separators| >= 1
    requires forall i :: 0 <= i < |parts| ==> !Contains(parts[i], separators[0])
    requires ChunkParts(parts, separators[1..], maxLen).Ok?
    ensures LongFree(ChunkParts(parts, separators[1..], maxLen).value, separators, maxLen)
    decreases |separators[1..]|, 1, |parts|
  {
    var rest := separators[1..];
    if parts != [] {
      ChunkPartsOk(parts, rest, maxLen);
      PartLong(parts[0], separators, maxLen);
      assert forall i :: 0 <= i < |parts[1..]| ==> parts[1..][i] == parts[i + 1];
      PartsLong(parts[1..], separators, maxLen);
      LongFreeConcat(PartChunks(parts[0], rest, maxLen).value, ChunkParts(parts[1..], rest, maxLen).value,
                     separators, maxLen);
    }
  }

  lemma {:induction false} PartLong(part: string, separators: seq<string>, maxLen: int)
    requires |separators| >= 1 && !Contains(part, separators[0])
    requires PartChunks(part, separators[1..], maxLen).Ok?
    ensures LongFree(PartChunks(part, separators[1..], maxLen).value, separators, maxLen)
    decreases |separators[1..]|, 1, 0
  {
    var p := Strip(part);
    if p != "" && |p| > maxLen {
      var rest := separators[1..];
      var cs := Chunks(p, rest, maxLen).value;
      ChunksLong(p, rest, maxLen);
      StripSlice(part);
      assert OccursAt(part, p, LeadingSpace(part));
      forall k | 0 <= k < |cs|
        ensures !Contains(cs[k], separators[0])
      {
        ChunkInfix(p, rest, maxLen, k);
        if Contains(cs[k], separators[0]) {
          InfixTransitive(separators[0], cs[k], p);
          InfixTransitive(separators[0], p, part);
        }
      }
      LongFreeExtend(cs, separators, maxLen);
    }
  }

  // ---------------------------------------------------------------------
  // When the chunker raises
  // ---------------------------------------------------------------------

  predicate NonEmptySeparators(separators: seq<string>)
  {
    forall j :: 0 <= j < |separators| ==> separators[j] != ""
  }

  /** The only exception is `str.split`'s on an empty separator, and it
      cannot happen when every separator is non-empty. */
  lemma {:induction false} ChunksFailure(text: string, separators: seq<string>, maxLen: int)
    ensures Chunks(text, separators, maxLen).Err? ==> Chunks(text, separators, maxLen).error == EmptySeparator
    ensures NonEmptySeparators(separators) ==> Chunks(text, separators, maxLen).Ok?
    decreases |separators|, 0, 0
  {
    var t := Strip(text);
    if |t| > maxLen && separators != [] && separators[0] != "" {
      PartsFailure(Split(t, separators[0]), separators[1..], maxLen);
    }
  }

  lemma {:induction false} PartsFailure(parts: seq<string>, rest: seq<string>, maxLen: int)
    ensures ChunkParts(parts, rest, maxLen).Err? ==> ChunkParts(parts, rest, maxLen).error == EmptySeparator
    ensures NonEmptySeparators(rest) ==> ChunkParts(parts, rest, maxLen).Ok?
    decreases |rest|, 1, |parts|
  {
    if parts != [] {
      PartFailure(parts[0], rest, maxLen);
      PartsFailure(parts[1..], rest, maxLen);
    }
  }

  lemma {:induction false} PartFailure(part: string, rest: seq<string>, maxLen: int)
    ensures PartChunks(part, rest, maxLen).Err? ==> PartChunks(part, rest, maxLen).error == EmptySeparator
    ensures NonEmptySeparators(rest) ==> PartChunks(part, rest, maxLen).Ok?
    decreases |rest|, 1, 0
  {
    var p := Strip(part);
    if p != "" && |p| > maxLen {
      ChunksFailure(p, rest, maxLen);
    }
  }

  // ---------------------------------------------------------------------
  // chunk_text
  // ---------------------------------------------------------------------

  /** One element of `chunk_text`'s output: `{"text": c, "page": page_num}`. */
  datatype Chunk = Chunk(text: string, page: Json)

  /** What `for entry in json_pages` visits: the items of a list. Iterating
      a non-empty dict or string yields keys or characters, on which
      `entry["page"]` raises; other values are not iterable. */
  function PageEntries(pages: Json): (r: Result<seq<Json>>)
    ensures r.Ok? <==> pages.JArr? || ((pages.JObj? || pages.JStr?) && !Truthy(pages))
    ensures r.Ok? ==> r.value == if pages.JArr? then pages.items else []
    ensures r.Err? ==> r.error == MalformedPage
  {
    match pages
    case JArr(items) => Ok(items)
    case JObj(fields) => if |fields| == 0 then Ok([]) else Err(MalformedPage)
    case JStr(s) => if s == "" then Ok([]) else Err(MalformedPage)
    case _ => Err(MalformedPage)
  }

  /** An entry on which `entry["page"]`, `entry["para"]` and
      `page_text.strip()` all succeed. */
  function IsPageEntry(entry: Json): (r: bool)
    ensures r ==> entry.JObj? && "page" in entry.fields && "para" in entry.fields && entry.fields["para"].JStr?
    ensures entry.JObj? && "page" in entry.fields && Get(entry.fields, "para", JNull).JStr? ==> r
  {
    entry.JObj? && "page" in entry.fields && "para" in entry.fields && entry.fields["para"].JStr?
  }

  function PageNumber(entry: Json): Json
    requires IsPageEntry(entry)
  {
    entry.fields["page"]
  }

  function PageText(entry: Json): string
    requires IsPageEntry(entry)
  {
    entry.fields["para"].s
  }

  /** Each chunk of one page, tagged with the page's number. */
  function Tag(cs: seq<string>, page: Json): (r: seq<Chunk>)
    ensures |r| == |cs|
    ensures forall k :: 0 <= k < |cs| ==> r[k].text == cs[k] && r[k].page == page
  {
    seq(|cs|, k requires 0 <= k < |cs| => Chunk(cs[k], page))
  }

  /** The loop of `chunk_text` over page entries, in order. */
  function PageChunks(entries: seq<Json>, separators: seq<string>, maxLen: int): Result<seq<Chunk>>
    decreases |entries|
  {
    if entries == [] then Ok([])
    else if !IsPageEntry(entries[0]) then Err(MalformedPage)
    else
      match Chunks(PageText(entries[0]), separators, maxLen)
      case Err(e) => Err(e)
      case Ok(cs) => Then(Tag(cs, PageNumber(entries[0])), PageChunks(entries[1..], separators, maxLen))
  }

  function SeparatorsOrDefault(separators: Option<seq<string>>): seq<string>
  {
    match separators
    case None => DefaultSeparators
    case Some(s) => s
  }

  /** What `chunk_text(json_pages, max_len, separators)` returns, or the
      exception it raises. */
  function TextChunks(jsonPages: Json, maxLen: int, separators: Option<seq<string>>): Result<seq<Chunk>>
  {
    match PageEntries(jsonPages)
    case Err(e) => Err(e)
    case Ok(entries) => PageChunks(entries, SeparatorsOrDefault(separators), maxLen)
  }

  /** `PageChunks` on `entries[i..]` unfolded once. */
  lemma PageChunksStep(entries: seq<Json>, i: int, separators: seq<string>, maxLen: int)
    requires 0 <= i < |entries|
    ensures PageChunks(entries[i..], separators, maxLen)
            == if !IsPageEntry(entries[i]) then Err(MalformedPage)
               else match Chunks(PageText(entries[i]), separators, maxLen)
                    case Err(e) => Err(e)
                    case Ok(cs) => Then(Tag(cs, PageNumber(entries[i])), PageChunks(entries[i + 1..], separators, maxLen))
  {
    assert entries[i..][0] == entries[i] && entries[i..][1..] == entries[i + 1..];
  }

  /** The outer loop of `chunk_text` moves past a page entry whose text
      chunked successfully. */
  lemma PageChunksAdvance(entries: seq<Json>, i: int, separators: seq<string>, maxLen: int,
                          before: seq<Chunk>, cs: seq<string>)
    requires 0 <= i < |entries| && IsPageEntry(entries[i])
    requires Chunks(PageText(entries[i]), separators, maxLen) == Ok(cs)
    requires PageChunks(entries, separators, maxLen) == Then(before, PageChunks(entries[i..], separators, maxLen))
    ensures PageChunks(entries, separators, maxLen)
            == Then(before + Tag(cs, PageNumber(entries[i])), PageChunks(entries[i + 1..], separators, maxLen))
  {
    PageChunksStep(entries, i, separators, maxLen);
    ThenThen(before, Tag(cs, PageNumber(entries[i])), PageChunks(entries[i + 1..], separators, maxLen));
  }

  /** The inner loop of `chunk_text`: append each chunk of one page with
      the page's number. */
  method AppendTagged(all: seq<Chunk>, cs: seq<string>, pageNum: Json) returns (r: seq<Chunk>)
    ensures r == all + Tag(cs, pageNum)
  {
    r := all;
    for j := 0 to |cs|
      invariant r == all + Tag(cs[..j], pageNum)
    {
      assert Tag(cs[..j + 1], pageNum) == Tag(cs[..j], pageNum) + [Chunk(cs[j], pageNum)];
      r := r + [Chunk(cs[j], pageNum)];
    }
    assert cs[..|cs|] == cs;
  }

  /** `chunk_text`: for each page, chunk its text and append every chunk
      tagged with the page number. */
  method ChunkText(jsonPages: Json, maxLen: int := DefaultMaxLen, separators: Option<seq<string>> := None)
    returns (r: Result<seq<Chunk>>)
    ensures r == TextChunks(jsonPages, maxLen, separators)
  {
    var seps := if separators.None? then DefaultSeparators else separators.value;
    var entries: seq<Json>;
    match PageEntries(jsonPages) {
      case Err(e) => return Err(e);
      case Ok(es) => entries := es;
    }
    var all: seq<Chunk> := [];
    assert entries[0..] == entries;
    ThenNil(PageChunks(entries, seps, maxLen));
    for i := 0 to |entries|
      invariant PageChunks(entries, seps, maxLen) == Then(all, PageChunks(entries[i..], seps, maxLen))
    {
      var entry := entries[i];
      if !IsPageEntry(entry) {
        PageChunksStep(entries, i, seps, maxLen);
        return Err(MalformedPage);
      }
      var pageNum := entry.fields["page"];
      var pageText := entry.fields["para"].s;
      var pageChunks := RecursiveChunk(pageText, seps, maxLen);
      if pageChunks.Err? {
        PageChunksStep(entries, i, seps, maxLen);
        return Err(pageChunks.error);
      }
      var cs := pageChunks.value;
      ghost var before := all;
      all := AppendTagged(all, cs, pageNum);
      PageChunksAdvance(entries, i, seps, maxLen, before, cs);
    }
    assert all + [] == all;
    return Ok(all);
  }

  // ---------------------------------------------------------------------
  // What chunk_text's result means
  // ---------------------------------------------------------------------

  /** The chunks of a list of pages are the chunks of its first part
      followed by the chunks of the rest, so pages keep their order. */
  lemma {:induction false} PageChunksAppend(a: seq<Json>, b: seq<Json>, separators: seq<string>, maxLen: int)
    ensures PageChunks(a + b, separators, maxLen)
            == match PageChunks(a, separators, maxLen)
               case Err(e) => Err(e)
               case Ok(xs) => Then(xs, PageChunks(b, separators, maxLen))
    decreases |a|
  {
    if a == [] {
      assert a + b == b;
      ThenNil(PageChunks(b, separators, maxLen));
    } else {
      assert (a + b)[0] == a[0] && (a + b)[1..] == a[1..] + b;
      PageChunksAppend(a[1..], b, separators, maxLen);
      if IsPageEntry(a[0]) && Chunks(PageText(a[0]), separators, maxLen).Ok? {
        var head := Tag(Chunks(PageText(a[0]), separators, maxLen).value, PageNumber(a[0]));
        var rest := PageChunks(a[1..], separators, maxLen);
        if rest.Ok? {
          ThenThen(head, rest.value, PageChunks(b, separators, maxLen));
        }
      }
    }
  }

  /** `c` is one of the chunks of page entry `e`: it carries the entry's
      page number, its text is a stripped piece of the entry's text, and if
      it is longer than `maxLen` it holds none of the separators. */
  ghost predicate FromPage(c: Chunk, e: Json, separators: seq<string>, maxLen: int)
  {
    && IsPageEntry(e)
    && c.page == PageNumber(e)
    && Contains(PageText(e), c.text)
    && Strip(c.text) == c.text
    && (|c.text| > maxLen ==> forall j :: 0 <= j < |separators| ==> !Contains(c.text, separators[j]))
  }

  lemma PageChunkFromEntry(e: Json, separators: seq<string>, maxLen: int, k: int)
    requires IsPageEntry(e) && Chunks(PageText(e), separators, maxLen).Ok?
    requires 0 <= k < |Chunks(PageText(e), separators, maxLen).value|
    ensures FromPage(Chunk(Chunks(PageText(e), separators, maxLen).value[k], PageNumber(e)), e, separators, maxLen)
  {
    ChunkInfix(PageText(e), separators, maxLen, k);
    ChunksStripped(PageText(e), separators, maxLen);
    ChunksLong(PageText(e), separators, maxLen);
  }

  /** A successful run over a non-empty list of entries is the first
      entry's tagged chunks followed by the rest's. */
  lemma PageChunksOkCons(entries: seq<Json>, separators: seq<string>, maxLen: int)
    requires PageChunks(entries, separators, maxLen).Ok? && entries != []
    ensures IsPageEntry(entries[0]) && Chunks(PageText(entries[0]), separators, maxLen).Ok?
    ensures PageChunks(entries[1..], separators, maxLen).Ok?
    ensures PageChunks(entries, separators, maxLen).value
            == Tag(Chunks(PageText(entries[0]), separators, maxLen).value, PageNumber(entries[0]))
               + PageChunks(entries[1..], separators, maxLen).value
  {
  }

  /** Every chunk `chunk_text` returns comes from some page entry. */
  lemma {:induction false} PageChunksProvenance(entries: seq<Json>, separators: seq<string>, maxLen: int,
                                                all: seq<Chunk>, k: int)
    returns (i: int)
    requires PageChunks(entries, separators, maxLen) == Ok(all)
    requires 0 <= k < |all|
    ensures 0 <= i < |entries|
    ensures FromPage(all[k], entries[i], separators, maxLen)
    decreases |entries|
  {
    var e := entries[0];
    PageChunksOkCons(entries, separators, maxLen);
    var cs := Chunks(PageText(e), separators, maxLen).value;
    var tail := PageChunks(entries[1..], separators, maxLen).value;
    if k < |cs| {
      i := 0;
      assert all[k] == Chunk(cs[k], PageNumber(e));
      PageChunkFromEntry(e, separators, maxLen, k);
    } else {
      var i' := PageChunksProvenance(entries[1..], separators, maxLen, tail, k - |cs|);
      i := i' + 1;
      assert all[k] == tail[k - |cs|];
      assert entries[i] == entries[1..][i'];
    }
  }

  /** `chunk_text` fails only on a malformed entry or an empty separator;
      with non-empty separators it succeeds exactly when every entry is a
      page entry. */
  lemma {:induction false} PageChunksOk(entries: seq<Json>, separators: seq<string>, maxLen: int)
    ensures PageChunks(entries, separators, maxLen).Ok?
            ==> forall i :: 0 <= i < |entries| ==> IsPageEntry(entries[i])
    ensures NonEmptySeparators(separators)
            ==> (PageChunks(entries, separators, maxLen).Ok?
                 <==> forall i :: 0 <= i < |entries| ==> IsPageEntry(entries[i]))
    decreases |entries|
  {
    if entries != [] {
      PageChunksOk(entries[1..], separators, maxLen);
      if IsPageEntry(entries[0]) {
        ChunksFailure(PageText(entries[0]), separators, maxLen);
      }
      assert forall i :: 1 <= i < |entries| ==> entries[i] == entries[1..][i - 1];
    }
  }

  /** With the defaults, `chunk_text` fails only on a malformed entry. */
  lemma DefaultsNeverFail(jsonPages: Json, maxLen: int)
    ensures PageEntries(jsonPages).Ok? && (forall i :: 0 <= i < |PageEntries(jsonPages).value|
                                              ==> IsPageEntry(PageEntries(jsonPages).value[i]))
            ==> TextChunks(jsonPages, maxLen, None).Ok?
  {
    if PageEntries(jsonPages).Ok? {
      assert NonEmptySeparators(DefaultSeparators);
      PageChunksOk(PageEntries(jsonPages).value, DefaultSeparators, maxLen);
    }
  }
}
