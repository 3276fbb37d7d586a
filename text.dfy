/** Strings as the helpers of index.js see them: JavaScript's white-space class
    (`\s`, which `trim` also removes), `trim`, `split(/\s+/)`,
    `replace(/\s+/g, ' ')`, `replace(/\s/g, '')`, `join(' ')` and
    `filter(Boolean).join(' ')`. Strings are sequences of Unicode scalar values. */
module Text {

  /** A value that may be missing. */
  datatype Option<T> = None | Some(value: T)

  /** Concatenation regroups. */
  lemma Regroup<T>(a: seq<T>, b: seq<T>, c: seq<T>)
    ensures (a + b) + c == a + (b + c)
  {
  }

  /** The white-space code points outside the range U+2000..U+200A. */
  const WsChars: set<char> := {'\t', '\n', '\U{B}', '\U{C}', '\r', ' ', '\U{A0}', '\U{1680}',
    '\U{2028}', '\U{2029}', '\U{202F}', '\U{205F}', '\U{3000}', '\U{FEFF}'}

  /** JavaScript's `\s`: the WhiteSpace and LineTerminator code points. */
  predicate IsWs(c: char) {
    c in WsChars || '\U{2000}' <= c <= '\U{200A}'
  }

  /** No character of `s` is white space. */
  predicate WsFree(s: string) {
    forall i :: 0 <= i < |s| ==> !IsWs(s[i])
  }

  /** Only white space. */
  predicate AllWs(s: string) {
    forall i :: 0 <= i < |s| ==> IsWs(s[i])
  }

  /** Every white-space character is ' ' and is followed by a non-white-space one. */
  predicate SingleSpaced(s: string) {
    forall i :: 0 <= i < |s| && IsWs(s[i]) ==> s[i] == ' ' && i + 1 < |s| && !IsWs(s[i + 1])
  }

  /** A single-spaced phrase: its only white space is ' ', never at either end
      and never twice in a row. */
  predicate IsPhrase(s: string) {
    SingleSpaced(s) && (s == [] || !IsWs(s[0]))
  }

  /** A non-empty run of non-white-space characters. */
  predicate IsWord(s: string) {
    s != [] && WsFree(s)
  }

  /** `s.replace(/\s/g, '')`. */
  function RemoveWs(s: string): (r: string)
    ensures WsFree(r) && |r| <= |s|
  {
    if s == [] then []
    else (if IsWs(s[0]) then [] else [s[0]]) + RemoveWs(s[1..])
  }

  /** Removing white space keeps a word-like string whole and empties a blank one. */
  lemma {:induction false} RemoveWsExtremes(s: string)
    ensures WsFree(s) ==> RemoveWs(s) == s
    ensures AllWs(s) ==> RemoveWs(s) == []
  {
    if s != [] {
      RemoveWsExtremes(s[1..]);
      assert WsFree(s) ==> WsFree(s[1..]);
      assert AllWs(s) ==> AllWs(s[1..]);
    }
  }

  lemma {:induction false} RemoveWsAppend(a: string, b: string)
    ensures RemoveWs(a + b) == RemoveWs(a) + RemoveWs(b)
  {
    if a == [] {
      assert a + b == b;
    } else {
      var head := if IsWs(a[0]) then [] else [a[0]];
      assert RemoveWs(a + b) == head + RemoveWs(a[1..] + b) by {
        assert (a + b)[0] == a[0];
        assert (a + b)[1..] == a[1..] + b;
      }
      RemoveWsAppend(a[1..], b);
      assert head + (RemoveWs(a[1..]) + RemoveWs(b)) == (head + RemoveWs(a[1..])) + RemoveWs(b);
    }
  }

  /** `s` without its leading white space. */
  function TrimStart(s: string): (r: string)
    ensures |r| <= |s| && r == s[|s| - |r|..]
    ensures r == [] || !IsWs(r[0])
    ensures AllWs(s[..|s| - |r|])
  {
    if s != [] && IsWs(s[0]) then
      var r := TrimStart(s[1..]);
      assert s[..|s| - |r|] == [s[0]] + s[1..][..|s[1..]| - |r|];
      r
    else s
  }

  lemma TrimStartShrinks(s: string)
    requires s != [] && IsWs(s[0])
    ensures |TrimStart(s)| < |s|
  {
    assert TrimStart(s) == TrimStart(s[1..]);
  }

  /** `s` without its trailing white space. */
  function TrimEnd(s: string): (r: string)
    ensures |r| <= |s| && r == s[..|r|]
    ensures r == [] || !IsWs(r[|r| - 1])
    ensures AllWs(s[|r|..])
  {
    if s != [] && IsWs(s[|s| - 1]) then
      var r := TrimEnd(s[..|s| - 1]);
      assert s[|r|..] == s[..|s| - 1][|r|..] + [s[|s| - 1]];
      r
    else s
  }

  /** `s.trim()`. */
  function Trim(s: string): (r: string)
    ensures r == [] || (!IsWs(r[0]) && !IsWs(r[|r| - 1]))
  {
    var t := TrimStart(s);
    var r := TrimEnd(t);
    assert r != [] ==> r[0] == t[0];
    r
  }

  /** `trim` yields "" exactly for blank strings, and leaves a string alone
      whose ends are not white space. */
  lemma TrimBlank(s: string)
    ensures Trim(s) == [] <==> AllWs(s)
    ensures s == [] || (!IsWs(s[0]) && !IsWs(s[|s| - 1])) ==> Trim(s) == s
  {
    TrimEmpty(s);
    if s == [] || (!IsWs(s[0]) && !IsWs(s[|s| - 1])) {
      TrimIdle(s);
    }
  }

  lemma TrimEmpty(s: string)
    ensures Trim(s) == [] <==> AllWs(s)
  {
    var t := TrimStart(s);
    var r := TrimEnd(t);
    var pre := s[..|s| - |t|];
    assert s == pre + t;
    if r == [] {
      assert t == [] by {
        assert t[|r|..] == t;
      }
      assert s == pre;
    } else {
      assert !IsWs(s[|s| - |t|]) by {
        assert r[0] == t[0];
      }
    }
  }

  lemma TrimIdle(s: string)
    requires s == [] || (!IsWs(s[0]) && !IsWs(s[|s| - 1]))
    ensures Trim(s) == s
  {
    assert TrimStart(s) == s;
    assert TrimEnd(s) == s;
  }

  /** `trim` removes white space only. */
  lemma TrimKeepsText(s: string)
    ensures RemoveWs(Trim(s)) == RemoveWs(s)
  {
    TrimStartKeepsText(s);
    TrimEndKeepsText(TrimStart(s));
  }

  lemma TrimStartKeepsText(s: string)
    ensures RemoveWs(TrimStart(s)) == RemoveWs(s)
  {
    var t := TrimStart(s);
    var pre := s[..|s| - |t|];
    assert s == pre + t;
    RemoveWsAppend(pre, t);
    RemoveWsExtremes(pre);
  }

  lemma TrimEndKeepsText(t: string)
    ensures RemoveWs(TrimEnd(t)) == RemoveWs(t)
  {
    var r := TrimEnd(t);
    var post := t[|r|..];
    assert t == r + post;
    RemoveWsAppend(r, post);
    RemoveWsExtremes(post);
  }

  /** The first white-space position of `s` at or after `i`, or `|s|`. */
  function NextWs(s: string, i: nat): (j: nat)
    requires i <= |s|
    ensures i <= j <= |s| && (j == |s| || IsWs(s[j]))
    ensures WsFree(s[i..j])
    decreases |s| - i
  {
    if i == |s| || IsWs(s[i]) then i else NextWs(s, i + 1)
  }

  /** `s.split(/\s+/)`: the fields between maximal white-space runs; a leading
      or trailing run yields an empty first or last field, and "" yields [""]. */
  function Split(s: string): (fields: seq<string>)
    ensures |fields| >= 1
    ensures forall f :: f in fields ==> WsFree(f)
    decreases |s|
  {
    var j := NextWs(s, 0);
    if j == |s| then [s]
    else
      var rest := TrimStart(s[j..]);
      TrimStartShrinks(s[j..]);
      [s[..j]] + Split(rest)
  }

  /** `parts.join('')`. */
  function Concat(parts: seq<string>): string {
    if parts == [] then "" else parts[0] + Concat(parts[1..])
  }

  lemma ConcatCons(a: string, rest: seq<string>)
    ensures Concat([a] + rest) == a + Concat(rest)
  {
    assert ([a] + rest)[1..] == rest;
  }

  lemma {:induction false} ConcatAppend(a: seq<string>, b: seq<string>)
    ensures Concat(a + b) == Concat(a) + Concat(b)
  {
    if a == [] {
      assert a + b == b;
    } else {
      assert (a + b)[1..] == a[1..] + b;
      ConcatAppend(a[1..], b);
    }
  }

  /** Splitting a trimmed, non-blank string yields words: no field is empty. */
  lemma {:induction false} SplitWords(s: string)
    requires s != [] && !IsWs(s[0]) && !IsWs(s[|s| - 1])
    ensures forall f :: f in Split(s) ==> IsWord(f)
    decreases |s|
  {
    var j := NextWs(s, 0);
    assert IsWord(s[..j]) by {
      HeadWsFree(s, j);
      assert s[..j][0] == s[0];
    }
    if j == |s| {
      assert s[..j] == s;
      assert Split(s) == [s];
    } else {
      var rest := TrimStart(s[j..]);
      assert forall f :: f in Split(rest) ==> IsWord(f) by {
        SplitRestTrimmed(s, j, rest);
        TrimStartShrinks(s[j..]);
        SplitWords(rest);
      }
      SplitUnfold(s, j, rest);
    }
  }

  lemma SplitUnfold(s: string, j: nat, rest: string)
    requires j == NextWs(s, 0) < |s| && rest == TrimStart(s[j..])
    ensures Split(s) == [s[..j]] + Split(rest)
  {
  }

  /** What follows the first white-space run of a trimmed string is trimmed. */
  lemma SplitRestTrimmed(s: string, j: nat, rest: string)
    requires s != [] && !IsWs(s[|s| - 1])
    requires j == NextWs(s, 0) < |s| && rest == TrimStart(s[j..])
    ensures rest != [] && !IsWs(rest[0]) && !IsWs(rest[|rest| - 1])
  {
    TrimStartKeepsLast(s[j..]);
  }

  /** `trimStart` keeps a last character that is not white space. */
  lemma {:induction false} TrimStartKeepsLast(t: string)
    requires t != [] && !IsWs(t[|t| - 1])
    ensures TrimStart(t) != [] && TrimStart(t)[|TrimStart(t)| - 1] == t[|t| - 1]
  {
    if IsWs(t[0]) {
      assert t[1..][|t| - 2] == t[|t| - 1];
      TrimStartKeepsLast(t[1..]);
    }
  }

  /** The fields of `split(/\s+/)` hold every non-white-space character of the
      string, in order. */
  lemma {:induction false} SplitKeepsText(s: string)
    ensures Concat(Split(s)) == RemoveWs(s)
    decreases |s|
  {
    var j := NextWs(s, 0);
    if j == |s| {
      SplitWhole(s);
    } else {
      var t := s[j..];
      var rest := TrimStart(t);
      TrimStartShrinks(t);
      SplitKeepsText(rest);
      SplitStep(s, j, t, rest);
    }
  }

  lemma SplitWhole(s: string)
    requires NextWs(s, 0) == |s|
    ensures Concat(Split(s)) == RemoveWs(s)
  {
    assert s[0..|s|] == s;
    assert Split(s) == [s];
    assert Concat([s]) == s + Concat([]);
    RemoveWsExtremes(s);
  }

  lemma SplitStep(s: string, j: nat, t: string, rest: string)
    requires j == NextWs(s, 0) < |s| && t == s[j..] && rest == TrimStart(t)
    requires Concat(Split(rest)) == RemoveWs(rest)
    ensures Concat(Split(s)) == RemoveWs(s)
  {
    var head := s[..j];
    assert Split(s) == [head] + Split(rest);
    ConcatCons(head, Split(rest));
    SplitPieces(s, j, t);
    HeadWsFree(s, j);
    SeparatorDropped(s, head, t, rest);
  }

  lemma SplitPieces(s: string, j: nat, t: string)
    requires j == NextWs(s, 0) < |s| && t == s[j..]
    ensures s == s[..j] + t
  {
  }

  /** The first field of `split(/\s+/)` has no white space. */
  lemma HeadWsFree(s: string, j: nat)
    requires j == NextWs(s, 0)
    ensures WsFree(s[..j])
  {
  }

  lemma SeparatorDropped(s: string, head: string, t: string, rest: string)
    requires s == head + t && WsFree(head)
    requires rest == TrimStart(t)
    ensures RemoveWs(s) == head + RemoveWs(rest)
  {
    var pre := t[..|t| - |rest|];
    assert t == pre + rest;
    calc {
      RemoveWs(s);
      { RemoveWsAppend(head, t); }
      RemoveWs(head) + RemoveWs(t);
      { RemoveWsExtremes(head); }
      head + RemoveWs(pre + rest);
      { RemoveWsAppend(pre, rest); }
      head + (RemoveWs(pre) + RemoveWs(rest));
      { RemoveWsExtremes(pre); }
      head + ([] + RemoveWs(rest));
      { assert [] + RemoveWs(rest) == RemoveWs(rest); }
      head + RemoveWs(rest);
    }
  }

  /** `s.replace(/\s+/g, ' ')`. */
  function CollapseWs(s: string): string
    decreases |s|
  {
    if s == [] then []
    else if IsWs(s[0]) then " " + CollapseWs(TrimStart(s))
    else [s[0]] + CollapseWs(s[1..])
  }

  /** `parts.join(' ')`. */
  function Join(parts: seq<string>): string {
    if |parts| == 0 then ""
    else if |parts| == 1 then parts[0]
    else parts[0] + " " + Join(parts[1..])
  }

  /** The parts that are not the empty string (`filter(Boolean)` on strings). */
  function NonEmpty(parts: seq<string>): (r: seq<string>)
    ensures forall p :: p in r ==> p in parts && p != ""
  {
    if parts == [] then []
    else (if parts[0] == "" then [] else [parts[0]]) + NonEmpty(parts[1..])
  }

  /** `parts.filter(Boolean).join(' ')`. */
  function JoinNonEmpty(parts: seq<string>): string {
    Join(NonEmpty(parts))
  }

  /** No part is the empty string. */
  predicate NoneEmpty(parts: seq<string>) {
    forall p :: p in parts ==> p != ""
  }

  /** Two phrases joined by one space, either of them possibly empty. */
  function Glue(a: string, b: string): string {
    if a == "" then b else if b == "" then a else a + " " + b
  }

  lemma {:induction false} JoinAppend(a: seq<string>, b: seq<string>)
    requires a != [] && b != []
    ensures Join(a + b) == Join(a) + " " + Join(b)
  {
    if |a| == 1 {
      assert (a + b)[1..] == b;
    } else {
      assert (a + b)[1..] == a[1..] + b;
      JoinAppend(a[1..], b);
    }
  }

  /** Joining non-empty strings never gives the empty string. */
  lemma JoinNotEmpty(parts: seq<string>)
    requires parts != [] && forall p :: p in parts ==> p != ""
    ensures Join(parts) != ""
  {
    assert parts[0] in parts;
  }

  lemma {:induction false} JoinCons(a: string, rest: seq<string>)
    requires a != "" && forall p :: p in rest ==> p != ""
    ensures Join([a] + rest) == Glue(a, Join(rest))
  {
    if rest == [] {
      assert [a] + rest == [a];
    } else {
      JoinNotEmpty(rest);
      JoinAppend([a], rest);
    }
  }

  lemma {:induction false} JoinNonEmptyCons(a: string, rest: seq<string>)
    ensures JoinNonEmpty([a] + rest) == Glue(a, JoinNonEmpty(rest))
  {
    assert ([a] + rest)[1..] == rest;
    var ne := NonEmpty(rest);
    if a == "" {
      assert NonEmpty([a] + rest) == ne;
    } else {
      assert NonEmpty([a] + rest) == [a] + ne;
      JoinCons(a, ne);
    }
  }

  /** Two non-empty phrases around one space form a phrase. */
  lemma PhraseSpacePhrase(a: string, b: string)
    requires a != "" && b != "" && IsPhrase(a) && IsPhrase(b)
    ensures IsPhrase(a + " " + b)
  {
    var s := a + " " + b;
    forall i | 0 <= i < |s| && IsWs(s[i])
      ensures s[i] == ' ' && i + 1 < |s| && !IsWs(s[i + 1])
    {
      if i < |a| {
        assert s[i] == a[i];
        assert s[i + 1] == a[i + 1];
      } else if i == |a| {
        assert s[i + 1] == b[0];
      } else {
        assert s[i] == b[i - |a| - 1];
        assert s[i + 1] == b[i - |a|];
      }
    }
    assert s[0] == a[0];
  }

  /** Joining non-empty phrases with single spaces gives a phrase. */
  lemma {:induction false} JoinPhrases(parts: seq<string>)
    requires forall p :: p in parts ==> p != "" && IsPhrase(p)
    ensures IsPhrase(Join(parts))
  {
    if |parts| == 1 {
      assert parts[0] in parts;
    } else if |parts| > 1 {
      assert parts[0] in parts;
      assert forall p :: p in parts[1..] ==> p in parts;
      JoinPhrases(parts[1..]);
      JoinNotEmpty(parts[1..]);
      PhraseSpacePhrase(parts[0], Join(parts[1..]));
    }
  }

  /** A single-spaced string is left unchanged by `replace(/\s+/g, ' ')`. */
  lemma {:induction false} CollapseSingleSpaced(s: string)
    requires SingleSpaced(s)
    ensures CollapseWs(s) == s
    decreases |s|
  {
    if s != [] {
      SingleSpacedTail(s);
      CollapseSingleSpaced(s[1..]);
      if IsWs(s[0]) {
        TrimSingleSpace(s);
        assert s == " " + s[1..];
      } else {
        assert s == [s[0]] + s[1..];
      }
    }
  }

  lemma SingleSpacedTail(s: string)
    requires s != [] && SingleSpaced(s)
    ensures SingleSpaced(s[1..])
  {
    forall i | 0 <= i < |s[1..]| && IsWs(s[1..][i])
      ensures s[1..][i] == ' ' && i + 1 < |s[1..]| && !IsWs(s[1..][i + 1])
    {
      assert s[1..][i] == s[i + 1];
    }
  }

  lemma TrimSingleSpace(s: string)
    requires s != [] && IsWs(s[0]) && SingleSpaced(s)
    ensures s[0] == ' ' && TrimStart(s) == s[1..]
  {
    assert TrimStart(s) == TrimStart(s[1..]);
    assert s[1..][0] == s[1];
  }

  /** `s.replace(/\s+/g, ' ').trim()` leaves a phrase unchanged. */
  lemma PhraseNormalized(s: string)
    requires IsPhrase(s)
    ensures Trim(CollapseWs(s)) == s
  {
    CollapseSingleSpaced(s);
  }
  /** A word is a phrase. */
  lemma WordIsPhrase(s: string)
    requires IsWord(s)
    ensures IsPhrase(s)
  {
  }

  /** Gluing two phrases gives a phrase. */
  lemma GluePhrases(a: string, b: string)
    requires IsPhrase(a) && IsPhrase(b)
    ensures IsPhrase(Glue(a, b))
  {
    if a != "" && b != "" {
      PhraseSpacePhrase(a, b);
    }
  }

  lemma GlueAssoc(a: string, b: string, c: string)
    ensures Glue(Glue(a, b), c) == Glue(a, Glue(b, c))
  {
    if a != "" && b != "" && c != "" {
      assert (a + " " + b) + " " + c == a + " " + (b + " " + c);
    }
  }

  /** Appending one more non-empty part to a join. */
  lemma JoinSnoc(parts: seq<string>, g: string)
    requires g != "" && NoneEmpty(parts)
    ensures Join(parts + [g]) == Glue(Join(parts), g) && NoneEmpty(parts + [g])
  {
    if parts == [] {
      assert parts + [g] == [g];
    } else {
      JoinNotEmpty(parts);
      JoinAppend(parts, [g]);
    }
  }

  /** No white space from `i` on: the field runs to the end. */
  lemma {:induction false} NextWsNone(s: string, i: nat)
    requires i <= |s| && WsFree(s)
    ensures NextWs(s, i) == |s|
    decreases |s| - i
  {
    if i < |s| {
      NextWsNone(s, i + 1);
    }
  }

  /** Splitting a single-spaced join of words gives the words back. */
  lemma {:induction false} SplitJoin(parts: seq<string>)
    requires parts != [] && forall p :: p in parts ==> IsWord(p)
    ensures Split(Join(parts)) == parts
  {
    var a := parts[0];
    assert a in parts;
    if |parts| == 1 {
      NextWsNone(a, 0);
    } else {
      var tail := parts[1..];
      assert forall p :: p in tail ==> p in parts;
      var j := Join(tail);
      SplitJoin(tail);
      JoinNotEmpty(tail);
      JoinPhrases(tail) by {
        forall p | p in tail ensures p != "" && IsPhrase(p) {
          WordIsPhrase(p);
        }
      }
      SplitAfterWord(a, j);
    }
  }

  /** A word, one space and a phrase: the word is the first field and the
      phrase is split next. */
  lemma SplitAfterWord(a: string, j: string)
    requires IsWord(a) && j != "" && IsPhrase(j)
    ensures Split(a + " " + j) == [a] + Split(j)
  {
    var s := a + " " + j;
    NextWsAt(s, |a|);
    assert s[..|a|] == a;
    assert s[|a|..] == " " + j;
    assert TrimStart(" " + j) == j by {
      assert (" " + j)[1..] == j;
    }
  }

  lemma NextWsAt(s: string, j: nat)
    requires j < |s| && IsWs(s[j]) && WsFree(s[..j])
    ensures NextWs(s, 0) == j
  {
    NextWsBefore(s, 0, j);
  }

  lemma {:induction false} NextWsBefore(s: string, i: nat, j: nat)
    requires i <= j < |s| && IsWs(s[j]) && WsFree(s[..j])
    ensures NextWs(s, i) == j
    decreases j - i
  {
    if i < j {
      assert s[i] == s[..j][i];
      NextWsBefore(s, i + 1, j);
    }
  }
}
