/** Greedy word wrapping: `wrapByWords` (index.js:590-607), which lays the
    address of the card out on lines of at most `limit` characters.

    `Wrap` describes the result the way the loop of the source builds it, one
    word at a time; the method `WrapByWords` is that loop, proved to compute
    `Wrap`, and the lemmas say what the lines are: short enough, never empty,
    holding every word of the input whole and in order, cut into chunks only
    when a word alone is longer than a line. */
module Wrap {
  import opened Text

  function Min(a: int, b: int): int {
    if a <= b then a else b
  }

  /** The pieces `w.slice(i, i + limit)` for `i` = 0, `limit`, 2 `limit`, ...
      below `|w|`. */
  function Chunks(w: string, limit: nat): seq<string>
    requires limit >= 1
    decreases |w|
  {
    if w == [] then [] else if |w| <= limit then [w] else [w[..limit]] + Chunks(w[limit..], limit)
  }

  /** The state of the loop of `wrapByWords`: the lines pushed so far and the
      line being filled. */
  datatype Packing = Packing(lines: seq<string>, line: string)

  /** The lines with the current line pushed when it is not empty. */
  function Flush(p: Packing): seq<string> {
    if p.line != "" then p.lines + [p.line] else p.lines
  }

  /** One pass of the loop for the word `w`: a word longer than a line closes
      the current line and is pushed in chunks; otherwise it starts the empty
      line, joins the current one after a space when that still fits, or
      pushes the current line and starts the next one. */
  function Place(p: Packing, w: string, limit: nat): Packing
    requires limit >= 1
  {
    if |w| > limit then Packing(Flush(p) + Chunks(w, limit), "")
    else if p.line == "" then Packing(p.lines, w)
    else if |p.line| + 1 + |w| <= limit then Packing(p.lines, p.line + " " + w)
    else Packing(p.lines + [p.line], w)
  }

  /** The state after the loop has placed `words`. */
  function PlaceAll(words: seq<string>, limit: nat): Packing
    requires limit >= 1
  {
    if words == [] then Packing([], "")
    else Place(PlaceAll(words[..|words| - 1], limit), words[|words| - 1], limit)
  }

  /** What `wrapByWords(str, limit)` returns: `['']` for the empty string,
      otherwise the words of the trimmed string placed one by one and the
      last line pushed when it is not empty. */
  function Wrap(str: string, limit: nat): seq<string>
    requires limit >= 1
  {
    if str == "" then [""] else Flush(PlaceAll(Split(Trim(str)), limit))
  }

  /** `wrapByWords`. */
  method WrapByWords(str: string, limit: nat) returns (lines: seq<string>)
    requires limit >= 1
    ensures lines == Wrap(str, limit)
  {
    if str == "" {
      return [""];
    }
    var words := Split(Trim(str));
    lines := [];
    var line := "";
    assert words[..0] == [];
    for k := 0 to |words|
      invariant Packing(lines, line) == PlaceAll(words[..k], limit)
    {
      PlaceNext(words, k, limit);
      lines, line := PlaceWord(lines, line, words[k], limit);
    }
    PlacedAll(words, limit, Packing(lines, line));
    WrapPlaced(str, limit, Packing(lines, line));
    if line != "" {
      lines := lines + [line];
    }
  }

  lemma PlacedAll(words: seq<string>, limit: nat, p: Packing)
    requires limit >= 1 && p == PlaceAll(words[..|words|], limit)
    ensures p == PlaceAll(words, limit)
  {
    assert words[..|words|] == words;
  }

  /** Once every word is placed, flushing gives the wrapped lines. */
  lemma WrapPlaced(str: string, limit: nat, p: Packing)
    requires limit >= 1 && str != "" && p == PlaceAll(Split(Trim(str)), limit)
    ensures Flush(p) == Wrap(str, limit)
  {
  }

  /** Placing the words up to `k + 1` is placing word `k` after those before it. */
  lemma PlaceNext(words: seq<string>, k: nat, limit: nat)
    requires limit >= 1 && k < |words|
    ensures PlaceAll(words[..k + 1], limit) == Place(PlaceAll(words[..k], limit), words[k], limit)
  {
    assert words[..k + 1][..k] == words[..k];
  }

  /** The body of the loop of `wrapByWords` for the word `w`. */
  method PlaceWord(lines0: seq<string>, line0: string, w: string, limit: nat) returns (lines: seq<string>, line: string)
    requires limit >= 1
    ensures Packing(lines, line) == Place(Packing(lines0, line0), w, limit)
  {
    lines, line := lines0, line0;
    if |w| > limit {
      if line != "" {
        lines := lines + [line];
        line := "";
      }
      lines := PushChunks(lines, w, limit);
    } else if line == "" {
      line := w;
    } else if |line| + 1 + |w| <= limit {
      line := line + " " + w;
    } else {
      lines := lines + [line];
      line := w;
    }
  }

  /** The inner loop of `wrapByWords`: pushes the chunks of an over-long word. */
  method PushChunks(before: seq<string>, w: string, limit: nat) returns (lines: seq<string>)
    requires limit >= 1
    ensures lines == before + Chunks(w, limit)
  {
    lines := before;
    var i := 0;
    while i < |w|
      invariant 0 <= i
      invariant lines + Chunks(w[Min(i, |w|)..], limit) == before + Chunks(w, limit)
      decreases |w| - i
    {
      var j := Min(i + limit, |w|);
      ChunksStep(w, i, limit);
      lines := lines + [w[i..j]];
      i := i + limit;
    }
    assert lines + [] == lines;
  }

  /** Cutting from offset `i` yields the slice up to `i + limit` (or the
      end), then the chunks of the rest. */
  lemma ChunksStep(w: string, i: nat, limit: nat)
    requires limit >= 1 && i < |w|
    ensures Chunks(w[i..], limit) == [w[i..Min(i + limit, |w|)]] + Chunks(w[Min(i + limit, |w|)..], limit)
  {
    var s := w[i..];
    if |s| <= limit {
      assert w[i..Min(i + limit, |w|)] == s;
      assert w[Min(i + limit, |w|)..] == [];
    } else {
      assert s[..limit] == w[i..i + limit];
      assert s[limit..] == w[i + limit..];
    }
  }

  // ---------------------------------------------------------------------
  // Chunks
  // ---------------------------------------------------------------------

  /** The chunks of a word are non-empty, at most `limit` long, and
      concatenate back to the word. */
  lemma ChunksOfWord(w: string, limit: nat)
    requires limit >= 1
    ensures Concat(Chunks(w, limit)) == w
    ensures forall c :: c in Chunks(w, limit) ==> 0 < |c| <= limit
    ensures WsFree(w) ==> forall c :: c in Chunks(w, limit) ==> IsWord(c)
  {
    ChunksConcat(w, limit);
    ChunksSized(w, limit);
  }

  lemma {:induction false} ChunksConcat(w: string, limit: nat)
    requires limit >= 1
    ensures Concat(Chunks(w, limit)) == w
    decreases |w|
  {
    if w != [] && |w| > limit {
      ChunksConcat(w[limit..], limit);
      ConcatCons(w[..limit], Chunks(w[limit..], limit));
      assert w[..limit] + w[limit..] == w;
    } else if w != [] {
      ConcatCons(w, []);
      assert [w] + [] == [w];
      assert w + [] == w;
    }
  }

  lemma {:induction false} ChunksSized(w: string, limit: nat)
    requires limit >= 1
    ensures forall c :: c in Chunks(w, limit) ==> 0 < |c| <= limit
    ensures WsFree(w) ==> forall c :: c in Chunks(w, limit) ==> IsWord(c)
    decreases |w|
  {
    if w != [] && |w| > limit {
      ChunksSized(w[limit..], limit);
      assert WsFree(w) ==> WsFree(w[..limit]) && WsFree(w[limit..]);
    }
  }

  // ---------------------------------------------------------------------
  // Line lengths
  // ---------------------------------------------------------------------

  /** Every pushed line is non-empty and fits; so does the current line. */
  predicate Fits(p: Packing, limit: nat) {
    (forall l :: l in p.lines ==> 0 < |l| <= limit) && |p.line| <= limit
  }

  lemma PlaceFits(p: Packing, w: string, limit: nat)
    requires limit >= 1 && Fits(p, limit)
    ensures Fits(Place(p, w, limit), limit)
  {
    if |w| > limit {
      ChunksOfWord(w, limit);
    }
  }

  lemma {:induction false} PlaceAllFits(words: seq<string>, limit: nat)
    requires limit >= 1
    ensures Fits(PlaceAll(words, limit), limit)
  {
    if words != [] {
      PlaceAllFits(words[..|words| - 1], limit);
      PlaceFits(PlaceAll(words[..|words| - 1], limit), words[|words| - 1], limit);
    }
  }

  /** No line is longer than `limit`, and for a non-empty input no line is
      empty. */
  lemma WrapFits(str: string, limit: nat)
    requires limit >= 1
    ensures forall l :: l in Wrap(str, limit) ==> |l| <= limit
    ensures str != "" ==> forall l :: l in Wrap(str, limit) ==> l != ""
  {
    if str != "" {
      PlaceAllFits(Split(Trim(str)), limit);
    }
  }

  /** The empty string gives one empty line; a blank string gives no line. */
  lemma WrapBlank(str: string, limit: nat)
    requires limit >= 1
    ensures str == "" ==> Wrap(str, limit) == [""]
    ensures str != "" && AllWs(str) ==> Wrap(str, limit) == []
  {
    if str != "" && AllWs(str) {
      TrimBlank(str);
      assert NextWs("", 0) == 0;
      assert Split(Trim(str)) == [""];
      assert [""][..0] == [];
      assert PlaceAll([""], limit) == Place(Packing([], ""), "", limit);
    }
  }

  // ---------------------------------------------------------------------
  // The text is kept
  // ---------------------------------------------------------------------

  /** The non-white-space characters of some lines, in order. */
  function LineText(lines: seq<string>): string {
    RemoveWs(Concat(lines))
  }

  lemma LineTextAppend(a: seq<string>, b: seq<string>)
    ensures LineText(a + b) == LineText(a) + LineText(b)
  {
    ConcatAppend(a, b);
    RemoveWsAppend(Concat(a), Concat(b));
  }

  lemma LineTextOne(l: string)
    ensures LineText([l]) == RemoveWs(l)
  {
    assert [l] + [] == [l];
    ConcatCons(l, []);
    assert l + [] == l;
  }

  /** The characters placed so far: the pushed lines, then the current line. */
  function Kept(p: Packing): string {
    LineText(p.lines) + RemoveWs(p.line)
  }

  lemma FlushKept(p: Packing)
    ensures LineText(Flush(p)) == Kept(p)
  {
    if p.line != "" {
      LineTextAppend(p.lines, [p.line]);
      LineTextOne(p.line);
    } else {
      assert RemoveWs(p.line) == [];
      assert Kept(p) == LineText(p.lines) + [];
    }
  }

  lemma PlaceKeepsText(p: Packing, w: string, limit: nat)
    requires limit >= 1 && WsFree(w)
    ensures Kept(Place(p, w, limit)) == Kept(p) + w
  {
    if |w| > limit {
      ChunksKeepText(p, w, limit);
    } else if p.line == "" {
      StartKeepsText(p.lines, w);
    } else if |p.line| + 1 + |w| <= limit {
      ExtendKeepsText(p.lines, p.line, w);
    } else {
      PushKeepsText(p.lines, p.line, w);
    }
  }

  lemma StartKeepsText(lines: seq<string>, w: string)
    requires WsFree(w)
    ensures Kept(Packing(lines, w)) == Kept(Packing(lines, "")) + w
  {
    RemoveWsExtremes(w);
    assert RemoveWs("") == [];
    assert LineText(lines) + [] == LineText(lines);
  }

  lemma ExtendKeepsText(lines: seq<string>, line: string, w: string)
    requires WsFree(w)
    ensures Kept(Packing(lines, line + " " + w)) == Kept(Packing(lines, line)) + w
  {
    SpaceKeepsText(line, w);
    var a, b := LineText(lines), RemoveWs(line);
    assert a + (b + w) == (a + b) + w;
  }

  lemma PushKeepsText(lines: seq<string>, line: string, w: string)
    requires WsFree(w)
    ensures Kept(Packing(lines + [line], w)) == Kept(Packing(lines, line)) + w
  {
    LineTextAppend(lines, [line]);
    LineTextOne(line);
    RemoveWsExtremes(w);
  }

  lemma ChunksKeepText(p: Packing, w: string, limit: nat)
    requires limit >= 1 && WsFree(w)
    ensures Kept(Packing(Flush(p) + Chunks(w, limit), "")) == Kept(p) + w
  {
    FlushKept(p);
    ChunksOfWord(w, limit);
    LineTextAppend(Flush(p), Chunks(w, limit));
    RemoveWsExtremes(w);
    assert RemoveWs("") == [];
  }

  lemma SpaceKeepsText(line: string, w: string)
    requires WsFree(w)
    ensures RemoveWs(line + " " + w) == RemoveWs(line) + w
  {
    RemoveWsAppend(line, " ");
    RemoveWsAppend(line + " ", w);
    RemoveWsExtremes(w);
    assert RemoveWs(" ") == [];
    assert RemoveWs(line) + [] == RemoveWs(line);
  }

  lemma {:induction false} PlaceAllKeepsText(words: seq<string>, limit: nat)
    requires limit >= 1 && forall w :: w in words ==> WsFree(w)
    ensures Kept(PlaceAll(words, limit)) == Concat(words)
  {
    if words == [] {
      assert Kept(Packing([], "")) == [];
    } else {
      var init := words[..|words| - 1];
      var last := words[|words| - 1];
      assert forall w :: w in init ==> w in words;
      assert last in words;
      PlaceAllKeepsText(init, limit);
      PlaceKeepsText(PlaceAll(init, limit), last, limit);
      assert init + [last] == words;
      ConcatAppend(init, [last]);
      ConcatCons(last, []);
      assert last + [] == last;
    }
  }

  /** The lines hold exactly the non-white-space characters of the input, in
      order. */
  lemma WrapKeepsText(str: string, limit: nat)
    requires limit >= 1
    ensures LineText(Wrap(str, limit)) == RemoveWs(str)
  {
    if str == "" {
      LineTextOne("");
    } else {
      var words := Split(Trim(str));
      PlaceAllKeepsText(words, limit);
      FlushKept(PlaceAll(words, limit));
      SplitKeepsText(Trim(str));
      TrimKeepsText(str);
    }
  }

  // ---------------------------------------------------------------------
  // Words stay whole and in order
  // ---------------------------------------------------------------------

  /** What the loop does to one word: a word longer than a line becomes its
      chunks, any other word stays as it is. */
  function Piece(w: string, limit: nat): seq<string>
    requires limit >= 1
  {
    if |w| > limit then Chunks(w, limit) else [w]
  }

  /** The pieces of all the words, in order. */
  function Pieces(words: seq<string>, limit: nat): seq<string>
    requires limit >= 1
  {
    if words == [] then []
    else Pieces(words[..|words| - 1], limit) + Piece(words[|words| - 1], limit)
  }

  /** The white-space separated fields of each line, one line after another. */
  function Fields(lines: seq<string>): seq<string> {
    if lines == [] then [] else Split(lines[0]) + Fields(lines[1..])
  }

  predicate AllWords(ws: seq<string>) {
    forall w :: w in ws ==> IsWord(w)
  }

  /** Each line is a single-spaced phrase of at least one word. */
  predicate Phrases(lines: seq<string>) {
    forall l :: l in lines ==> l != "" && IsPhrase(l)
  }

  /** The words on the current line after `words` are placed. */
  function LineWords(words: seq<string>, limit: nat): seq<string>
    requires limit >= 1
  {
    if words == [] then []
    else
      var init := words[..|words| - 1];
      var w := words[|words| - 1];
      var p := PlaceAll(init, limit);
      if |w| > limit then []
      else if p.line == "" then [w]
      else if |p.line| + 1 + |w| <= limit then LineWords(init, limit) + [w]
      else [w]
  }

  lemma {:induction false} FieldsAppend(a: seq<string>, b: seq<string>)
    ensures Fields(a + b) == Fields(a) + Fields(b)
  {
    if a == [] {
      assert a + b == b;
    } else {
      assert (a + b)[1..] == a[1..] + b;
      FieldsAppend(a[1..], b);
    }
  }

  /** The fields of words are the words themselves. */
  lemma {:induction false} FieldsOfWords(ws: seq<string>)
    requires AllWords(ws)
    ensures Fields(ws) == ws
  {
    if ws != [] {
      assert ws[0] in ws;
      assert forall w :: w in ws[1..] ==> w in ws;
      FieldsOfWords(ws[1..]);
      NextWsNone(ws[0], 0);
    }
  }

  /** The state the loop keeps: the fields of the pushed lines followed by
      the words of the current line are the pieces of the words placed so
      far, and the current line is those words joined by single spaces. */
  predicate Ordered(p: Packing, cur: seq<string>, placed: seq<string>) {
    Fields(p.lines) + cur == placed && p.line == Join(cur) && AllWords(cur) && Phrases(p.lines)
  }

  lemma LineOfWords(cur: seq<string>)
    requires AllWords(cur)
    ensures cur == [] <==> Join(cur) == ""
    ensures cur != [] ==> Split(Join(cur)) == cur && IsPhrase(Join(cur))
  {
    if cur != [] {
      JoinNotEmpty(cur);
      SplitJoin(cur);
      forall w | w in cur
        ensures w != "" && IsPhrase(w)
      {
        WordIsPhrase(w);
      }
      JoinPhrases(cur);
    }
  }

  /** Closing the current line moves its words to the pushed lines. */
  lemma FlushOrdered(p: Packing, cur: seq<string>, placed: seq<string>)
    requires Ordered(p, cur, placed)
    ensures Ordered(Packing(Flush(p), ""), [], placed)
  {
    LineOfWords(cur);
    if p.line != "" {
      FieldsAppend(p.lines, [p.line]);
      assert Fields([p.line]) == Split(p.line) + Fields([]);
    }
    assert Join([]) == "";
  }

  lemma ChunkOrdered(p: Packing, cur: seq<string>, placed: seq<string>, w: string, limit: nat)
    requires limit >= 1 && |w| > limit && IsWord(w)
    requires Ordered(p, cur, placed)
    ensures Ordered(Place(p, w, limit), [], placed + Chunks(w, limit))
  {
    var lines := Flush(p);
    var cs := Chunks(w, limit);
    FlushOrdered(p, cur, placed);
    ChunkWords(w, limit);
    FieldsAppend(lines, cs);
    FieldsOfWords(cs);
    assert Fields(lines) == placed by {
      assert Fields(lines) + [] == placed;
    }
    assert Phrases(lines + cs) by {
      assert Phrases(lines);
    }
    assert Fields(lines + cs) + [] == placed + cs;
  }

  /** The chunks of a word are words, hence phrases. */
  lemma ChunkWords(w: string, limit: nat)
    requires limit >= 1 && IsWord(w)
    ensures AllWords(Chunks(w, limit)) && Phrases(Chunks(w, limit))
  {
    ChunksOfWord(w, limit);
    forall c | c in Chunks(w, limit)
      ensures c != "" && IsPhrase(c)
    {
      WordIsPhrase(c);
    }
  }

  lemma StartOrdered(p: Packing, cur: seq<string>, placed: seq<string>, w: string)
    requires IsWord(w) && p.line == ""
    requires Ordered(p, cur, placed)
    ensures Ordered(Packing(p.lines, w), [w], placed + [w])
  {
    LineOfWords(cur);
    assert cur == [];
  }

  lemma ExtendOrdered(p: Packing, cur: seq<string>, placed: seq<string>, w: string)
    requires IsWord(w) && p.line != ""
    requires Ordered(p, cur, placed)
    ensures Ordered(Packing(p.lines, p.line + " " + w), cur + [w], placed + [w])
  {
    LineOfWords(cur);
    JoinSnoc(cur, w) by {
      forall u | u in cur
        ensures u != ""
      {
      }
    }
  }

  lemma PushOrdered(p: Packing, cur: seq<string>, placed: seq<string>, w: string)
    requires IsWord(w) && p.line != ""
    requires Ordered(p, cur, placed)
    ensures Ordered(Packing(p.lines + [p.line], w), [w], placed + [w])
  {
    FlushOrdered(p, cur, placed);
  }

  lemma PlaceOrdered(p: Packing, cur: seq<string>, placed: seq<string>, w: string, limit: nat)
    requires limit >= 1 && IsWord(w)
    requires Ordered(p, cur, placed)
    ensures Ordered(Place(p, w, limit), if |w| > limit then [] else if p.line == "" then [w]
      else if |p.line| + 1 + |w| <= limit then cur + [w] else [w], placed + Piece(w, limit))
  {
    if |w| > limit {
      ChunkOrdered(p, cur, placed, w, limit);
    } else if p.line == "" {
      StartOrdered(p, cur, placed, w);
    } else if |p.line| + 1 + |w| <= limit {
      ExtendOrdered(p, cur, placed, w);
    } else {
      PushOrdered(p, cur, placed, w);
    }
  }

  lemma {:induction false} PlaceAllOrdered(words: seq<string>, limit: nat)
    requires limit >= 1 && AllWords(words)
    ensures Ordered(PlaceAll(words, limit), LineWords(words, limit), Pieces(words, limit))
  {
    if words == [] {
      assert Join([]) == "";
    } else {
      var init := words[..|words| - 1];
      var w := words[|words| - 1];
      assert forall u :: u in init ==> u in words;
      assert w in words;
      PlaceAllOrdered(init, limit);
      PlaceOrdered(PlaceAll(init, limit), LineWords(init, limit), Pieces(init, limit), w, limit);
    }
  }

  /** For an input that is not blank, every line is a single-spaced phrase,
      and reading the lines' words one after another gives the input's words
      in order, each whole, except that a word longer than `limit` is cut into
      its chunks. */
  lemma WrapKeepsWords(str: string, limit: nat)
    requires limit >= 1 && !AllWs(str)
    ensures Phrases(Wrap(str, limit))
    ensures Fields(Wrap(str, limit)) == Pieces(Split(Trim(str)), limit)
  {
    var t := Trim(str);
    TrimBlank(str);
    SplitWords(t);
    var words := Split(t);
    PlaceAllOrdered(words, limit);
    FlushOrdered(PlaceAll(words, limit), LineWords(words, limit), Pieces(words, limit));
    assert Fields(Wrap(str, limit)) + [] == Fields(Wrap(str, limit));
  }
}
