/** Lines of a byte string, and line iteration over chunks. */
module Lines {
  import opened Wrappers
  import opened AesGcm
  import opened Chunks
  import opened Decryptors
  import opened Stream

  const LF: bv8 := 10
  const CR: bv8 := 13

  /** Length of the first line with its terminator: LF, CR LF or CR. */
  function LineLength(s: bytes): (n: nat)
    requires s != []
    ensures 1 <= n <= |s|
  {
    if s[0] == LF then 1
    else if s[0] == CR then (if |s| > 1 && s[1] == LF then 2 else 1)
    else if |s| == 1 then 1
    else 1 + LineLength(s[1..])
  }

  /** A line without its terminator. */
  function Strip(line: bytes): bytes {
    var n := |line|;
    if n >= 1 && line[n - 1] == LF then
      (if n >= 2 && line[n - 2] == CR then line[..n - 2] else line[..n - 1])
    else if n >= 1 && line[n - 1] == CR then line[..n - 1]
    else line
  }

  /** bytes.splitlines(keepends). */
  function SplitLines(s: bytes, keepends: bool): seq<bytes> {
    if s == [] then
      []
    else
      var n := LineLength(s);
      [if keepends then s[..n] else Strip(s[..n])] + SplitLines(s[n..], keepends)
  }

  lemma {:induction false} LineLengthPrefix(s: bytes, t: bytes)
    requires s != []
    ensures LineLength(s) < |s| ==> LineLength(s + t) == LineLength(s)
    ensures LineLength(s[..LineLength(s)]) == LineLength(s)
  {
    if s[0] == LF || s[0] == CR || |s| == 1 {
    } else {
      assert (s + t)[1..] == s[1..] + t;
      assert s[..LineLength(s)][1..] == s[1..][..LineLength(s[1..])];
      LineLengthPrefix(s[1..], t);
    }
  }

  lemma {:induction false} SameCount(s: bytes, keepends: bool)
    ensures |SplitLines(s, keepends)| == |SplitLines(s, true)|
    decreases |s|
  {
    if s != [] {
      SameCount(s[LineLength(s)..], keepends);
    }
  }

  lemma FirstAlone(s: bytes, keepends: bool)
    requires s != []
    ensures var first := s[..LineLength(s)];
            SplitLines(first, keepends) == [if keepends then first else Strip(first)]
  {
    LineLengthPrefix(s, []);
    var first := s[..LineLength(s)];
    assert first[..|first|] == first && first[|first|..] == [];
  }

  /** A line on its own splits into itself, and the two modes differ by the terminator only. */
  lemma {:induction false} LineAlone(s: bytes, keepends: bool, i: nat)
    requires i < |SplitLines(s, true)|
    ensures var line := SplitLines(s, true)[i];
            && line != []
            && |SplitLines(s, keepends)| == |SplitLines(s, true)|
            && SplitLines(line, keepends) == [SplitLines(s, keepends)[i]]
    decreases |s|
  {
    SameCount(s, keepends);
    if i == 0 {
      FirstAlone(s, keepends);
    } else {
      LineAlone(s[LineLength(s)..], keepends, i - 1);
    }
  }

  /** More data only affects the last line so far: also when it completes a CR into a CR LF. */
  lemma {:induction false} AppendLines(s: bytes, t: bytes)
    requires s != []
    ensures var lines := SplitLines(s, true);
            && lines != []
            && SplitLines(s + t, true) == lines[..|lines| - 1] + SplitLines(lines[|lines| - 1] + t, true)
    decreases |s|
  {
    var n := LineLength(s);
    if n == |s| {
      assert s[..n] == s;
      assert SplitLines(s, true) == [s];
    } else {
      LineLengthPrefix(s, t);
      var rest := s[n..];
      assert (s + t)[..n] == s[..n];
      assert (s + t)[n..] == rest + t;
      AppendLines(rest, t);
      var lines, tail := SplitLines(s, true), SplitLines(rest, true);
      assert lines == [s[..n]] + tail;
      assert lines[..|lines| - 1] == [s[..n]] + tail[..|tail| - 1];
    }
  }

  /** Splitting loses nothing. */
  lemma {:induction false} LinesConcat(s: bytes)
    ensures Concat(SplitLines(s, true)) == s
    decreases |s|
  {
    if s != [] {
      var n := LineLength(s);
      LinesConcat(s[n..]);
      ConcatFront(s[..n], SplitLines(s[n..], true));
    }
  }

  // ---- What splitting computes, said without it ----

  /** A line ends right before position `p`: after an LF, or after a CR that no LF follows. */
  predicate Breaks(s: bytes, p: nat)
    requires 0 < p <= |s|
  {
    s[p - 1] == 10 || (s[p - 1] == 13 && (p == |s| || s[p] != 10))
  }

  lemma {:induction false} FirstLineBreaks(s: bytes)
    requires s != []
    ensures LineLength(s) < |s| ==> Breaks(s, LineLength(s))
    ensures forall p :: 0 < p < LineLength(s) ==> !Breaks(s, p)
  {
    if s[0] != LF && s[0] != CR && |s| > 1 {
      FirstLineBreaks(s[1..]);
      forall p | 0 < p < LineLength(s)
        ensures !Breaks(s, p)
      {
        if p > 1 {
          assert !Breaks(s[1..], p - 1);
        }
      }
    }
  }

  lemma OffsetFront(first: bytes, rest: seq<bytes>, k: nat)
    requires k <= |rest|
    ensures Offset([first] + rest, k + 1) == |first| + Offset(rest, k)
  {
    assert ([first] + rest)[..k + 1] == [first] + rest[..k];
    ConcatFront(first, rest[..k]);
  }

  /** Line `i` is not empty and ends at a break, or at the end if it is the last; and there is no
      break at `p` if that is inside it. */
  ghost predicate EndsAtBreak(s: bytes, lines: seq<bytes>, i: nat, p: nat)
    requires i < |lines|
  {
    var start, end := Offset(lines, i), Offset(lines, i + 1);
    && lines[i] != []
    && (if i + 1 < |lines| then 0 < end < |s| && Breaks(s, end) else end == |s|)
    && (start < p < end ==> p < |s| && !Breaks(s, p))
  }

  /** The lines of a byte string are what lies between its line breaks: every line but the last ends
      at one, and there is none inside a line. With `LinesConcat`, this leaves no choice. */
  lemma {:induction false} LinesEndAtBreaks(s: bytes, i: nat, p: nat)
    requires i < |SplitLines(s, true)|
    ensures EndsAtBreak(s, SplitLines(s, true), i, p)
    decreases |s|
  {
    var n := LineLength(s);
    var rest := SplitLines(s[n..], true);
    assert SplitLines(s, true) == [s[..n]] + rest;
    if i == 0 {
      FirstEndsAtBreak(s, rest, p);
    } else {
      LinesEndAtBreaks(s[n..], i - 1, if p > n then p - n else 0);
      LaterEndsAtBreak(s, n, rest, i, p);
    }
  }

  lemma FirstEndsAtBreak(s: bytes, rest: seq<bytes>, p: nat)
    requires s != [] && (rest == [] <==> LineLength(s) == |s|)
    ensures EndsAtBreak(s, [s[..LineLength(s)]] + rest, 0, p)
  {
    var first := s[..LineLength(s)];
    FirstLineBreaks(s);
    OffsetFront(first, rest, 0);
    assert rest[..0] == [] && ([first] + rest)[..0] == [];
  }

  lemma LaterEndsAtBreak(s: bytes, n: nat, rest: seq<bytes>, i: nat, p: nat)
    requires 0 < n <= |s| && 0 < i <= |rest|
    requires EndsAtBreak(s[n..], rest, i - 1, if p > n then p - n else 0)
    ensures EndsAtBreak(s, [s[..n]] + rest, i, p)
  {
    OffsetFront(s[..n], rest, i - 1);
    OffsetFront(s[..n], rest, i);
    BreaksLater(s, n);
    var end := Offset(rest, i);
    assert i < |rest| ==> Breaks(s[n..], end);
    assert p > n && p - n <= |s| - n ==> (Breaks(s[n..], p - n) <==> Breaks(s, p));
  }

  lemma BreaksLater(s: bytes, n: nat)
    requires n <= |s|
    ensures forall p :: 0 < p <= |s| - n ==> (Breaks(s[n..], p) <==> Breaks(s, n + p))
  {
    forall p | 0 < p <= |s| - n
      ensures Breaks(s[n..], p) <==> Breaks(s, n + p)
    {
      assert s[n..][p - 1] == s[n + p - 1] && (p < |s| - n ==> s[n..][p] == s[n + p]);
    }
  }

  /** The bytes of a stripped line, and what was stripped off. */
  predicate StrippedOf(line: bytes, kept: bytes, last: bool) {
    && 10 !in line && 13 !in line
    && (kept == line + [10] || kept == line + [13, 10] || kept == line + [13] || (last && kept == line))
  }

  /** Without terminators, no line holds an LF or a CR, and each is the kept line without one of the
      three terminators, or the last line without any. */
  lemma LinesWithoutTerminators(s: bytes, i: nat)
    requires i < |SplitLines(s, true)|
    ensures |SplitLines(s, false)| == |SplitLines(s, true)|
    ensures StrippedOf(SplitLines(s, false)[i], SplitLines(s, true)[i], i + 1 == |SplitLines(s, true)|)
  {
    var kept := SplitLines(s, true)[i];
    LineAlone(s, false, i);
    LineAlone(s, true, i);
    OneLine(kept);
    KeptEnd(s, i);
    StripIsStripped(kept);
  }

  lemma OneLine(kept: bytes)
    requires kept != [] && SplitLines(kept, true) == [kept]
    ensures LineLength(kept) == |kept| && SplitLines(kept, false) == [Strip(kept)]
  {
    var n := LineLength(kept);
    assert SplitLines(kept, true)[0] == kept[..n];
    assert kept[..n] == kept;
  }

  /** Where a line sits in the whole. */
  lemma {:induction false} LineInWhole(s: bytes, i: nat, j: nat)
    requires i < |SplitLines(s, true)| && j < |SplitLines(s, true)[i]|
    ensures var lines := SplitLines(s, true);
            Offset(lines, i) + j < |s| && lines[i][j] == s[Offset(lines, i) + j]
    decreases |s|
  {
    var n := LineLength(s);
    var lines, rest := SplitLines(s, true), SplitLines(s[n..], true);
    assert lines == [s[..n]] + rest;
    assert rest[..0] == [] && lines[..0] == [];
    if i > 0 {
      LineInWhole(s[n..], i - 1, j);
      OffsetFront(s[..n], rest, i - 1);
    }
  }

  /** Every line but the last ends in LF or CR. */
  lemma KeptEnd(s: bytes, i: nat)
    requires i < |SplitLines(s, true)|
    ensures var lines := SplitLines(s, true);
            lines[i] != [] && (i + 1 < |lines| ==> lines[i][|lines[i]| - 1] == 10 || lines[i][|lines[i]| - 1] == 13)
  {
    var lines := SplitLines(s, true);
    LinesEndAtBreaks(s, i, 0);
    LineInWhole(s, i, |lines[i]| - 1);
    OffsetStep(lines, i);
  }

  /** Inside a single line there is no LF, and a CR only right before an LF at its end. */
  lemma InsideLine(kept: bytes, j: nat)
    requires kept != [] && LineLength(kept) == |kept| && j + 1 < |kept|
    ensures kept[j] != 10 && (kept[j] == 13 ==> j + 2 == |kept| && kept[j + 1] == 10)
  {
    FirstLineBreaks(kept);
    assert !Breaks(kept, j + 1);
    assert kept[j] == 13 ==> Breaks(kept, j + 2);
  }

  lemma StripIsStripped(kept: bytes)
    requires kept != [] && LineLength(kept) == |kept|
    ensures StrippedOf(Strip(kept), kept, true)
    ensures kept[|kept| - 1] == 10 || kept[|kept| - 1] == 13 ==> StrippedOf(Strip(kept), kept, false)
  {
    var line, n := Strip(kept), |kept|;
    forall j | 0 <= j < |line|
      ensures line[j] != 10 && line[j] != 13
    {
      assert line[j] == kept[j];
      if j + 1 < n {
        InsideLine(kept, j);
      }
    }
    StripRest(kept);
  }

  lemma StripRest(kept: bytes)
    requires kept != []
    ensures var line, end := Strip(kept), kept[|kept| - 1];
            if end == 10 then kept == line + [10] || kept == line + [13, 10]
            else if end == 13 then kept == line + [13]
            else kept == line
  {
  }

  /** `line.splitlines(keepends)[0]`. */
  function Head(line: bytes, keepends: bool): bytes
    requires line != []
  {
    SplitLines(line, keepends)[0]
  }

  ghost predicate AllNonEmpty(lines: seq<bytes>) {
    forall i :: 0 <= i < |lines| ==> lines[i] != []
  }

  function Heads(lines: seq<bytes>, keepends: bool): seq<bytes>
    requires AllNonEmpty(lines)
  {
    seq(|lines|, i requires 0 <= i < |lines| => Head(lines[i], keepends))
  }

  lemma HeadsConcat(a: seq<bytes>, b: seq<bytes>, keepends: bool)
    requires AllNonEmpty(a) && AllNonEmpty(b)
    ensures AllNonEmpty(a + b) && Heads(a + b, keepends) == Heads(a, keepends) + Heads(b, keepends)
  {
  }

  lemma DropLast(a: seq<bytes>, b: seq<bytes>)
    requires b != []
    ensures (a + b)[..|a + b| - 1] == a + b[..|b| - 1] && (a + b)[|a + b| - 1] == b[|b| - 1]
  {
  }

  /** Restyling the lines one by one is splitting in the other mode. */
  lemma HeadsOfLines(s: bytes, keepends: bool)
    ensures AllNonEmpty(SplitLines(s, true))
    ensures Heads(SplitLines(s, true), keepends) == SplitLines(s, keepends)
  {
    forall i | 0 <= i < |SplitLines(s, true)|
      ensures SplitLines(s, true)[i] != []
      ensures |SplitLines(s, keepends)| == |SplitLines(s, true)|
      ensures Head(SplitLines(s, true)[i], keepends) == SplitLines(s, keepends)[i]
    {
      LineAlone(s, keepends, i);
    }
  }

  /** The state of the line iterator after reading `seen`: every line but the last was yielded. */
  ghost predicate Pending(seen: bytes, pending: bytes, lines: seq<bytes>, keepends: bool) {
    var whole := SplitLines(seen, true);
    if seen == [] then
      pending == [] && lines == []
    else
      && whole != [] && AllNonEmpty(whole)
      && pending == whole[|whole| - 1]
      && lines == Heads(whole[..|whole| - 1], keepends)
  }

  /** Splitting the pending line with the next chunk yields the next complete lines. */
  lemma NextLines(seen: bytes, pending: bytes, lines: seq<bytes>, keepends: bool, chunk: Chunk)
    requires Pending(seen, pending, lines, keepends)
    ensures var kept := SplitLines(pending + chunk, true);
            && kept != [] && AllNonEmpty(kept)
            && Pending(seen + chunk, kept[|kept| - 1], lines + Heads(kept[..|kept| - 1], keepends), keepends)
  {
    var kept := SplitLines(pending + chunk, true);
    HeadsOfLines(pending + chunk, keepends);
    if seen == [] {
      assert seen + chunk == pending + chunk;
      assert [] + Heads(kept[..|kept| - 1], keepends) == Heads(kept[..|kept| - 1], keepends);
    } else {
      AppendLines(seen, chunk);
      HeadsOfLines(seen, keepends);
      var before := SplitLines(seen, true)[..|SplitLines(seen, true)| - 1];
      HeadsConcat(before, kept, keepends);
      HeadsConcat(before, kept[..|kept| - 1], keepends);
      DropLast(before, kept);
    }
  }

  /** At the end of the data the pending line is the last one. */
  lemma LastLine(seen: bytes, pending: bytes, lines: seq<bytes>, keepends: bool)
    requires Pending(seen, pending, lines, keepends)
    ensures var all := SplitLines(seen, keepends);
            if pending == [] then lines == all == [] else lines + [Head(pending, keepends)] == all && lines == all[..|all| - 1]
  {
    HeadsOfLines(seen, keepends);
    if seen != [] {
      HeadsLast(SplitLines(seen, true), keepends);
    }
  }

  lemma HeadsLast(lines: seq<bytes>, keepends: bool)
    requires AllNonEmpty(lines) && lines != []
    ensures var n := |lines| - 1;
            && lines[n] != []
            && Heads(lines[..n], keepends) == Heads(lines, keepends)[..n]
            && Heads(lines, keepends)[..n] + [Head(lines[n], keepends)] == Heads(lines, keepends)
  {
  }

  method Restyle(lines: seq<bytes>, keepends: bool) returns (heads: seq<bytes>)
    requires AllNonEmpty(lines)
    ensures heads == Heads(lines, keepends)
  {
    heads := [];
    for i := 0 to |lines|
      invariant heads == Heads(lines[..i], keepends)
    {
      heads := heads + [Head(lines[i], keepends)];
    }
    assert lines[..|lines|] == lines;
  }

  /** What the line iterator has yielded when an error ends the data after `seen`. */
  function LinesBeforeError(seen: bytes, keepends: bool): seq<bytes> {
    var all := SplitLines(seen, keepends);
    if all == [] then [] else all[..|all| - 1]
  }

  /** The line iterator over the chunks of a stream: however the data is cut, it yields the
      lines of the whole. When the chunks end in an error it stops before the last line. */
  method IterLines(chunks: seq<Chunk>, failed: bool, keepends: bool) returns (lines: seq<bytes>)
    ensures lines == if failed then LinesBeforeError(Concat(chunks), keepends) else SplitLines(Concat(chunks), keepends)
  {
    lines := [];
    var pending: bytes := [];
    ghost var seen: bytes := [];
    for k := 0 to |chunks|
      invariant seen == Concat(chunks[..k])
      invariant Pending(seen, pending, lines, keepends)
    {
      OffsetStep(chunks, k);
      NextLines(seen, pending, lines, keepends, chunks[k]);
      seen := seen + chunks[k];
      var kept := SplitLines(pending + chunks[k], true);
      var complete := Restyle(kept[..|kept| - 1], keepends);
      lines := lines + complete;
      pending := kept[|kept| - 1];
    }
    assert chunks[..|chunks|] == chunks;
    LastLine(seen, pending, lines, keepends);
    if pending != [] && !failed {
      lines := lines + [Head(pending, keepends)];
    }
  }

  /** iter_lines of a new stream, over any short reads, for any chunk size and announced length:
      exactly the lines of the one-shot plaintext; or, with the error one-shot decryption or the
      length check gives, all but the last line of some plaintext that early release may show. */
  method LinesOfStream(stream: DecryptingStream, chunkSize: nat, keepends: bool)
    returns (lines: seq<bytes>, error: Option<Failure>)
    requires stream.Valid() && stream.Snapshot() == START && chunkSize > 0
    modifies stream, stream.body, stream.decryptor.Object()
    ensures var consumed := Announced(stream.body.data, stream.contentLength);
            match Finish(stream.spec, consumed, stream.contentLength) {
              case Ok(plaintext) => error == None && lines == SplitLines(plaintext, keepends)
              case Err(e) =>
                && error == Some(e)
                && exists seen ::
                     && seen <= stream.spec.Released(consumed)
                     && lines == LinesBeforeError(seen, keepends)
            }
  {
    StartConsistent(stream.spec, stream.body.data, stream.contentLength);
    var chunks;
    chunks, error := stream.IterChunks(chunkSize);
    ghost var body := stream.body.data;
    assert body[..stream.bytesConsumed] == Announced(body, stream.contentLength);
    assert stream.delivered == Concat(chunks);
    lines := IterLines(chunks, error.Some?, keepends);
    assert error.Some? ==> lines == LinesBeforeError(Concat(chunks), keepends);
  }
}
