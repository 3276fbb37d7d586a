/** Turkish number words: `numberToTRWords` with its triad renderer `three`
    (index.js:619-647).

    The rendering works on strings, as the source does. Beside it, a numeral
    is also described as a sequence of `Word`s, and `Read` gives the value a
    Turkish reader assigns to such a sequence; the lemmas show that the
    rendered string is exactly the spelling of a word sequence that reads
    back as the number (modulo the five scales the source knows). */
module TurkishNumbers {
  import opened Text

  /** `birler`: the digit words, "" for 0. */
  const Ones: seq<string> := ["", "BİR", "İKİ", "ÜÇ", "DÖRT", "BEŞ", "ALTI", "YEDİ", "SEKİZ", "DOKUZ"]
  /** `onlar`: the words for 10, 20, ..., 90, "" for 0. */
  const Tens: seq<string> := ["", "ON", "YİRMİ", "OTUZ", "KIRK", "ELLİ", "ALTMIŞ", "YETMİŞ", "SEKSEN", "DOKSAN"]
  /** `binlik`: the scale words, "" for the units triad. */
  const Scales: seq<string> := ["", "BİN", "MİLYON", "MİLYAR", "TRİLYON"]
  const HundredWord: string := "YÜZ"
  const ZeroWord: string := "SIFIR"

  /** 1000^i. */
  function Pow1000(i: nat): (p: nat)
    ensures p > 0
  {
    if i == 0 then 1 else 1000 * Pow1000(i - 1)
  }

  // ---------------------------------------------------------------------
  // The string rendering, as index.js does it
  // ---------------------------------------------------------------------

  /** `three(x)`: the words for `x % 1000`, hundreds then tens then ones,
      the non-empty ones joined by single spaces. */
  function Three(x: nat): (r: string)
    ensures r == "" <==> x % 1000 == 0
  {
    var y := x % 1000;
    var hundreds := y / 100;
    var tens := (y % 100) / 10;
    var ones := y % 10;
    var a := HundredsText(hundreds);
    var b := Tens[tens];
    var c := Ones[ones];
    JoinNonEmptyThree(a, b, c);
    TriadParts(y);
    JoinNonEmpty([a, b, c])
  }

  /** Each of the three parts of a triad is empty exactly when its digit
      is 0; all three digits are 0 only for the zero triad. */
  lemma TriadParts(y: nat)
    requires y < 1000
    ensures HundredsText(y / 100) == "" <==> y / 100 == 0
    ensures Tens[y % 100 / 10] == "" <==> y % 100 / 10 == 0
    ensures Ones[y % 10] == "" <==> y % 10 == 0
    ensures y == 0 <==> y / 100 == 0 && y % 100 / 10 == 0 && y % 10 == 0
  {
    OnesAreLetters();
    TensAreLetters();
  }

  /** The text `three` gives the hundreds digit `h`. */
  function HundredsText(h: nat): string
    requires h <= 9
  {
    if h == 0 then "" else if h == 1 then HundredWord else Ones[h] + " " + HundredWord
  }

  /** The thousand-scale elision as index.js:640 writes it, or as it is meant. */
  datatype Variant = AsWritten | Intended

  /** The text put before the scale word of the non-zero triad `k` at scale
      `i`. For the thousand triad equal to one the source replaces the chunk
      by "BİN", which the scale word then repeats; the intended rendering
      drops the chunk so that only the scale word "BİN" remains. */
  function Chunk(k: nat, i: nat, v: Variant): string {
    if i == 1 && k == 1 then (if v == AsWritten then Scales[1] else "") else Three(k)
  }

  /** The text one non-zero triad contributes: `[chunk, binlik[i]].filter(Boolean).join(' ')`. */
  function GroupText(k: nat, i: nat, v: Variant): string
    requires i < |Scales|
  {
    JoinNonEmpty([Chunk(k, i, v), Scales[i]])
  }

  /** The group texts of the triads of `m` from scale `i` up to the last
      scale, most significant first, zero triads skipped. This is what the
      loop of `numberToTRWords` still has to `unshift` when its counter is
      `i` and its remaining number is `m`. */
  function GroupsFrom(m: nat, i: nat, v: Variant): seq<string>
    decreases |Scales| - i
  {
    if m == 0 || i >= |Scales| then []
    else GroupsFrom(m / 1000, i + 1, v) + (if m % 1000 != 0 then [GroupText(m % 1000, i, v)] else [])
  }

  /** One pass of the loop of `numberToTRWords` moves the triad `m % 1000`
      from the part still to render to the front of the rendered part. */
  lemma GroupsFromStep(m: nat, i: nat, v: Variant, before: seq<string>, after: seq<string>)
    requires m > 0 && i < |Scales|
    requires after == (if m % 1000 != 0 then [GroupText(m % 1000, i, v)] else []) + before
    ensures GroupsFrom(m, i, v) + before == GroupsFrom(m / 1000, i + 1, v) + after
  {
    var high, low := GroupsFrom(m / 1000, i + 1, v), (if m % 1000 != 0 then [GroupText(m % 1000, i, v)] else []);
    GroupsUnfold(m, i, v);
    Regroup(high, low, before);
  }


  lemma GroupsUnfold(m: nat, i: nat, v: Variant)
    requires m != 0 && i < |Scales|
    ensures GroupsFrom(m, i, v)
         == GroupsFrom(m / 1000, i + 1, v) + (if m % 1000 != 0 then [GroupText(m % 1000, i, v)] else [])
  {
  }

  lemma GroupsFromDone(m: nat, i: nat, v: Variant)
    requires m == 0 || i >= |Scales|
    ensures GroupsFrom(m, i, v) == []
  {
  }

  /** The body of the loop of `numberToTRWords` for a non-zero triad `k` at
      scale `i`: the group spells the triad's words and reads as `k * 1000^i`. */
  method RenderGroup(k: nat, i: nat) returns (group: string)
    requires 0 < k < 1000 && i < |Scales|
    ensures group == GroupText(k, i, Intended)
    ensures ReadText(group) == Some(k * Pow1000(i))
  {
    var chunk := Three(k);
    if i == 1 && k == 1 {
      chunk := "";
    }
    group := JoinNonEmpty([chunk, Scales[i]]);
    GroupSpelled(k, i, Intended);
    assert ReadText(group) == Some(k * Pow1000(i)) by {
      ReadTextRender(GroupWords(k, i, Intended));
      GroupRead(k, i);
    }
  }

  /** A reader gives the words of the non-zero triad `k` at scale `i` the value `k * 1000^i`. */
  lemma GroupRead(k: nat, i: nat)
    requires 0 < k < 1000 && i < |Scales|
    ensures Read(GroupWords(k, i, Intended)) == k * Pow1000(i)
  {
    if i == 0 {
      assert GroupWords(k, 0, Intended) == TriadWords(k) + [];
      assert TriadWords(k) + [] == TriadWords(k);
      RunTriad(k, 0);
    } else {
      RunScaledGroup(k, i, 0);
    }
  }

  /** One pass of the loop of `numberToTRWords`: the group of the triad
      `m % 1000`, when it is not zero, is put in front of the groups already
      rendered, so the triad moves from the part still to render to the
      rendered part. */
  method UnshiftTriad(m: nat, i: nat, words: seq<string>) returns (after: seq<string>)
    requires m > 0 && i < |Scales|
    ensures GroupsFrom(m, i, Intended) + words == GroupsFrom(m / 1000, i + 1, Intended) + after
  {
    var k := m % 1000;
    after := words;
    if k != 0 {
      var group := RenderGroup(k, i);
      after := [group] + words;
    } else {
      assert after == [] + words;
    }
    GroupsFromStep(m, i, Intended, words, after);
  }

  /** What `numberToTRWords(n)` returns for the integer `n`. */
  function InWords(n: int, v: Variant): string {
    if n <= 0 then ZeroWord else Trim(CollapseWs(Join(GroupsFrom(n, 0, v))))
  }

  /** `numberToTRWords`, with the thousand elision as intended. The loop keeps
      the triads still to render (`GroupsFrom(n, i, _)`) in front of the
      groups already rendered. */
  method NumberToWords(value: int) returns (r: string)
    ensures r == InWords(value, Intended)
  {
    var n: nat := if value < 0 then 0 else value;
    if n == 0 {
      return ZeroWord;
    }
    ghost var all := GroupsFrom(n, 0, Intended);
    var i := 0;
    var words: seq<string> := [];
    assert GroupsFrom(n, i, Intended) + words == all;
    while n > 0 && i < |Scales|
      invariant 0 <= i <= |Scales|
      invariant GroupsFrom(n, i, Intended) + words == all
    {
      words := UnshiftTriad(n, i, words);
      n := n / 1000;
      i := i + 1;
    }
    assert words == all by {
      GroupsFromDone(n, i, Intended);
      assert [] + words == words;
    }
    r := Trim(CollapseWs(Join(words)));
  }

  // ---------------------------------------------------------------------
  // Numerals as word sequences, and how a reader evaluates them
  // ---------------------------------------------------------------------

  type Digit = d: nat | 1 <= d <= 9 witness 1
  type ScaleIndex = i: nat | 1 <= i <= 4 witness 1

  /** One word of a Turkish numeral. */
  datatype Word = One(d: Digit) | Ten(t: Digit) | Hundred | Scale(s: ScaleIndex) | Zero

  function Spell(w: Word): string {
    match w
    case One(d) => Ones[d]
    case Ten(t) => Tens[t]
    case Hundred => HundredWord
    case Scale(s) => Scales[s]
    case Zero => ZeroWord
  }

  function Spelled(ws: seq<Word>): (r: seq<string>)
    ensures |r| == |ws|
  {
    if ws == [] then [] else [Spell(ws[0])] + Spelled(ws[1..])
  }

  /** The words spelled out and separated by single spaces. */
  function Render(ws: seq<Word>): string {
    Join(Spelled(ws))
  }

  /** A bare "YÜZ" or "BİN" counts one hundred or one thousand. */
  function Lead(group: nat): nat {
    if group == 0 then 1 else group
  }

  /** A reader's state: the value of the groups already closed by a scale
      word, and that of the current group (below a thousand). */
  datatype Reading = Reading(total: nat, group: nat)

  /** Reading one more word. */
  function Step(w: Word, r: Reading): Reading {
    match w
    case One(d) => Reading(r.total, r.group + d)
    case Ten(t) => Reading(r.total, r.group + 10 * t)
    case Hundred => Reading(r.total, Lead(r.group) * 100)
    case Scale(s) => Reading(r.total + Lead(r.group) * Pow1000(s), 0)
    case Zero => r
  }

  /** Reading the words left to right. */
  function Run(ws: seq<Word>, r: Reading): Reading {
    if ws == [] then r else Run(ws[1..], Step(ws[0], r))
  }

  /** The value a reader gives the numeral `ws`. */
  function Read(ws: seq<Word>): nat {
    var r := Run(ws, Reading(0, 0));
    r.total + r.group
  }

  function HundredsWords(h: nat): seq<Word>
    requires h <= 9
  {
    if h == 0 then [] else if h == 1 then [Hundred] else [One(h), Hundred]
  }

  function TensWords(t: nat): seq<Word>
    requires t <= 9
  {
    if t == 0 then [] else [Ten(t)]
  }

  function OnesWords(d: nat): seq<Word>
    requires d <= 9
  {
    if d == 0 then [] else [One(d)]
  }

  /** The words of a triad: hundreds ("YÜZ" alone for one hundred), tens, ones. */
  function TriadWords(k: nat): seq<Word>
    requires k < 1000
  {
    HundredsWords(k / 100) + TensWords(k % 100 / 10) + OnesWords(k % 10)
  }

  /** The words of the non-zero triad `k` at scale `i`. */
  function GroupWords(k: nat, i: nat, v: Variant): seq<Word>
    requires 0 < k < 1000 && i < |Scales|
  {
    if i == 1 && k == 1 then (if v == AsWritten then [Scale(1), Scale(1)] else [Scale(1)])
    else TriadWords(k) + (if i == 0 then [] else [Scale(i)])
  }

  /** The words of the triads of `m` from scale `i` up, most significant first. */
  function WordsFrom(m: nat, i: nat, v: Variant): seq<Word>
    decreases |Scales| - i
  {
    if m == 0 || i >= |Scales| then []
    else WordsFrom(m / 1000, i + 1, v) + (if m % 1000 != 0 then GroupWords(m % 1000, i, v) else [])
  }

  /** The words of `numberToTRWords(n)`. */
  function PhraseWords(n: int, v: Variant): seq<Word> {
    if n <= 0 then [Zero] else WordsFrom(n, 0, v)
  }
  // ---------------------------------------------------------------------
  // The rendered string is the spelling of the words
  // ---------------------------------------------------------------------

  /** The letters of the numeral words: A to Z and the Turkish capitals
      between U+00C7 (Ç) and U+015F (ş). */
  predicate Letter(c: char) {
    'A' <= c <= 'Z' || '\U{C7}' <= c <= '\U{15F}'
  }

  predicate Letters(s: string) {
    forall i :: 0 <= i < |s| ==> Letter(s[i])
  }

  lemma LettersAreWord(s: string)
    requires s != [] && Letters(s)
    ensures IsWord(s)
  {
  }

  lemma OnesAreLetters()
    ensures forall d :: 1 <= d <= 9 ==> Ones[d] != [] && Letters(Ones[d])
  {
  }

  lemma TensAreLetters()
    ensures forall d :: 1 <= d <= 9 ==> Tens[d] != [] && Letters(Tens[d])
  {
  }

  lemma ScalesAreLetters()
    ensures forall d :: 1 <= d <= 4 ==> Scales[d] != [] && Letters(Scales[d])
  {
  }

  /** Every word is spelled as a non-empty run of non-white-space characters. */
  lemma SpellIsWord(w: Word)
    ensures IsWord(Spell(w))
  {
    OnesAreLetters();
    TensAreLetters();
    ScalesAreLetters();
    assert Letters(HundredWord) && Letters(ZeroWord);
    LettersAreWord(Spell(w));
  }
  lemma SpelledWords(ws: seq<Word>)
    ensures forall p :: p in Spelled(ws) ==> IsWord(p)
  {
    forall p | p in Spelled(ws)
      ensures IsWord(p)
    {
      var q :| 0 <= q < |ws| && Spelled(ws)[q] == p;
      SpelledAt(ws, q);
      SpellIsWord(ws[q]);
    }
  }

  lemma {:induction false} SpelledAt(ws: seq<Word>, q: nat)
    requires q < |ws|
    ensures Spelled(ws)[q] == Spell(ws[q])
  {
    if q > 0 {
      SpelledAt(ws[1..], q - 1);
    }
  }

  /** Rendering one more word in front. */
  lemma RenderCons(w: Word, rest: seq<Word>)
    ensures Render([w] + rest) == Glue(Spell(w), Render(rest))
  {
    assert ([w] + rest)[1..] == rest;
    SpellIsWord(w);
    SpelledWords(rest);
    JoinCons(Spell(w), Spelled(rest));
  }

  /** Rendering distributes over concatenation. */
  lemma {:induction false} RenderAppend(a: seq<Word>, b: seq<Word>)
    ensures Render(a + b) == Glue(Render(a), Render(b))
  {
    if a == [] {
      assert a + b == b;
    } else {
      assert a + b == [a[0]] + (a[1..] + b);
      assert a == [a[0]] + a[1..];
      RenderCons(a[0], a[1..] + b);
      RenderAppend(a[1..], b);
      RenderCons(a[0], a[1..]);
      GlueAssoc(Spell(a[0]), Render(a[1..]), Render(b));
    }
  }

  /** A rendering is a single-spaced phrase, empty only for no words. */
  lemma {:induction false} RenderIsPhrase(ws: seq<Word>)
    ensures IsPhrase(Render(ws))
    ensures Render(ws) == "" <==> ws == []
  {
    if ws != [] {
      assert ws == [ws[0]] + ws[1..];
      RenderCons(ws[0], ws[1..]);
      RenderIsPhrase(ws[1..]);
      SpellIsWord(ws[0]);
      WordIsPhrase(Spell(ws[0]));
      GluePhrases(Spell(ws[0]), Render(ws[1..]));
    }
  }

  lemma HundredsSpelled(h: nat)
    requires h <= 9
    ensures Render(HundredsWords(h)) == HundredsText(h)
  {
    if h == 1 {
      SpelledAt([Hundred], 0);
    } else if h > 1 {
      var ws := [One(h), Hundred];
      SpelledAt(ws, 0);
      SpelledAt(ws, 1);
      var sp := Spelled(ws);
      assert HundredsWords(h) == ws;
      assert sp[1..] == [HundredWord];
      assert Join(sp) == Ones[h] + " " + Join(sp[1..]);
    }
  }

  /** `[a, b, c].filter(Boolean).join(' ')`. */
  lemma JoinNonEmptyThree(a: string, b: string, c: string)
    ensures JoinNonEmpty([a, b, c]) == Glue(a, Glue(b, c))
  {
    assert [a, b, c] == [a] + [b, c];
    assert [b, c] == [b] + [c];
    assert [c] == [c] + [];
    JoinNonEmptyCons(a, [b, c]);
    JoinNonEmptyCons(b, [c]);
    JoinNonEmptyCons(c, []);
  }

  lemma ThreeGlued(k: nat)
    requires k < 1000
    ensures Three(k) == Glue(HundredsText(k / 100), Glue(Tens[k % 100 / 10], Ones[k % 10]))
  {
    assert k % 1000 == k;
    JoinNonEmptyThree(HundredsText(k / 100), Tens[k % 100 / 10], Ones[k % 10]);
  }

  lemma TriadGlued(k: nat)
    requires k < 1000
    ensures Render(TriadWords(k)) == Glue(HundredsText(k / 100), Glue(Tens[k % 100 / 10], Ones[k % 10]))
  {
    var hw, tw, ow := HundredsWords(k / 100), TensWords(k % 100 / 10), OnesWords(k % 10);
    HundredsSpelled(k / 100);
    assert Render(tw) == Tens[k % 100 / 10];
    assert Render(ow) == Ones[k % 10];
    RenderAppend(tw, ow);
    RenderAppend(hw, tw + ow);
    assert hw + (tw + ow) == TriadWords(k);
  }

  /** `three(k)` spells the hundreds, tens and ones words of the triad `k`. */
  lemma ThreeSpellsTriad(k: nat)
    requires k < 1000
    ensures Three(k) == Render(TriadWords(k))
  {
    ThreeGlued(k);
    TriadGlued(k);
  }
  lemma JoinNonEmptyTwo(a: string, b: string)
    ensures JoinNonEmpty([a, b]) == Glue(a, b)
  {
    assert [a, b] == [a] + [b];
    assert [b] == [b] + [];
    JoinNonEmptyCons(a, [b]);
    JoinNonEmptyCons(b, []);
  }

  lemma RenderOne(w: Word)
    ensures Render([w]) == Spell(w)
  {
    SpelledAt([w], 0);
  }

  /** The text of a non-zero triad and its scale word spells the group's words. */
  lemma GroupSpelled(k: nat, i: nat, v: Variant)
    requires 0 < k < 1000 && i < |Scales|
    ensures GroupText(k, i, v) == Render(GroupWords(k, i, v)) && GroupWords(k, i, v) != []
  {
    JoinNonEmptyTwo(Chunk(k, i, v), Scales[i]);
    if i == 1 && k == 1 {
      RenderOne(Scale(1));
      if v == AsWritten {
        RenderAppend([Scale(1)], [Scale(1)]);
        assert [Scale(1)] + [Scale(1)] == [Scale(1), Scale(1)];
      }
    } else {
      ThreeSpellsTriad(k);
      if i == 0 {
        assert TriadWords(k) + [] == TriadWords(k);
      } else {
        RenderOne(Scale(i));
        RenderAppend(TriadWords(k), [Scale(i)]);
      }
    }
  }

  lemma WordsUnfold(m: nat, i: nat, v: Variant)
    requires m != 0 && i < |Scales|
    ensures WordsFrom(m, i, v)
         == WordsFrom(m / 1000, i + 1, v) + (if m % 1000 != 0 then GroupWords(m % 1000, i, v) else [])
  {
  }

  /** The group texts still to render join to the spelling of their words;
      none of them is empty. */
  lemma {:induction false} GroupsSpelled(m: nat, i: nat, v: Variant)
    ensures Join(GroupsFrom(m, i, v)) == Render(WordsFrom(m, i, v))
    ensures NoneEmpty(GroupsFrom(m, i, v))
    decreases |Scales| - i
  {
    if m != 0 && i < |Scales| {
      GroupsSpelled(m / 1000, i + 1, v);
      GroupsUnfold(m, i, v);
      WordsUnfold(m, i, v);
      if m % 1000 != 0 {
        GroupSpelled(m % 1000, i, v);
        SnocSpelled(GroupsFrom(m / 1000, i + 1, v), WordsFrom(m / 1000, i + 1, v),
                    GroupText(m % 1000, i, v), GroupWords(m % 1000, i, v));
      } else {
        assert WordsFrom(m / 1000, i + 1, v) + [] == WordsFrom(m / 1000, i + 1, v);
        assert GroupsFrom(m / 1000, i + 1, v) + [] == GroupsFrom(m / 1000, i + 1, v);
      }
    }
  }

  /** Appending one more rendered group keeps a join equal to the rendering. */
  lemma SnocSpelled(groups: seq<string>, words: seq<Word>, g: string, gw: seq<Word>)
    requires Join(groups) == Render(words) && NoneEmpty(groups)
    requires g == Render(gw) && gw != []
    ensures Join(groups + [g]) == Render(words + gw) && NoneEmpty(groups + [g])
  {
    RenderIsPhrase(gw);
    JoinSnoc(groups, g);
    RenderAppend(words, gw);
  }

  /** `numberToTRWords(n)` is the spelling of the words `PhraseWords(n)`,
      "SIFIR" for zero and below. */
  lemma InWordsSpelled(n: int, v: Variant)
    ensures InWords(n, v) == Render(PhraseWords(n, v))
  {
    if n <= 0 {
      RenderOne(Zero);
    } else {
      GroupsSpelled(n, 0, v);
      RenderIsPhrase(WordsFrom(n, 0, v));
      PhraseNormalized(Render(WordsFrom(n, 0, v)));
    }
  }

  /** `numberToTRWords(n)` is a single-spaced phrase: words separated by one
      space, none at either end. */
  lemma InWordsIsPhrase(n: int, v: Variant)
    ensures IsPhrase(InWords(n, v))
  {
    InWordsSpelled(n, v);
    RenderIsPhrase(PhraseWords(n, v));
  }

  // ---------------------------------------------------------------------
  // The words read back as the number
  // ---------------------------------------------------------------------

  /** Reading two pieces one after the other. */
  lemma {:induction false} RunAppend(a: seq<Word>, b: seq<Word>, r: Reading)
    ensures Run(a + b, r) == Run(b, Run(a, r))
  {
    if a == [] {
      assert a + b == b;
    } else {
      assert (a + b)[0] == a[0] && (a + b)[1..] == a[1..] + b;
      RunAppend(a[1..], b, Step(a[0], r));
    }
  }

  lemma RunOne(w: Word, r: Reading)
    ensures Run([w], r) == Step(w, r)
  {
    assert [w][1..] == [];
  }

  lemma RunHundreds(h: nat, total: nat)
    requires h <= 9
    ensures Run(HundredsWords(h), Reading(total, 0)) == Reading(total, 100 * h)
  {
    if h == 1 {
      RunOne(Hundred, Reading(total, 0));
    } else if h > 1 {
      RunAppend([One(h)], [Hundred], Reading(total, 0));
      assert [One(h)] + [Hundred] == HundredsWords(h);
      RunOne(One(h), Reading(total, 0));
      RunOne(Hundred, Reading(total, h));
    }
  }

  lemma RunTens(t: nat, r: Reading)
    requires t <= 9
    ensures Run(TensWords(t), r) == Reading(r.total, r.group + 10 * t)
  {
    if t > 0 {
      RunOne(Ten(t), r);
    }
  }

  lemma RunOnes(d: nat, r: Reading)
    requires d <= 9
    ensures Run(OnesWords(d), r) == Reading(r.total, r.group + d)
  {
    if d > 0 {
      RunOne(One(d), r);
    }
  }

  /** The words of a triad read as the triad. */
  lemma RunTriad(k: nat, total: nat)
    requires k < 1000
    ensures Run(TriadWords(k), Reading(total, 0)) == Reading(total, k)
  {
    RunDigits(k / 100, k % 100 / 10, k % 10, total);
    assert k == 100 * (k / 100) + 10 * (k % 100 / 10) + k % 10;
  }

  lemma RunDigits(h: nat, t: nat, d: nat, total: nat)
    requires h <= 9 && t <= 9 && d <= 9
    ensures Run(HundredsWords(h) + TensWords(t) + OnesWords(d), Reading(total, 0))
         == Reading(total, 100 * h + 10 * t + d)
  {
    var hw, tw, ow := HundredsWords(h), TensWords(t), OnesWords(d);
    RunAppend(hw + tw, ow, Reading(total, 0));
    RunAppend(hw, tw, Reading(total, 0));
    RunHundreds(h, total);
    RunTens(t, Reading(total, 100 * h));
    RunOnes(d, Reading(total, 100 * h + 10 * t));
  }

  /** The words of a non-zero triad above the units, with its scale word,
      add the triad times its scale. */
  lemma RunScaledGroup(k: nat, i: nat, total: nat)
    requires 0 < k < 1000 && 1 <= i < |Scales|
    ensures Run(GroupWords(k, i, Intended), Reading(total, 0)) == Reading(total + k * Pow1000(i), 0)
  {
    if i == 1 && k == 1 {
      RunOne(Scale(1), Reading(total, 0));
    } else {
      RunAppend(TriadWords(k), [Scale(i)], Reading(total, 0));
      RunTriad(k, total);
      RunOne(Scale(i), Reading(total, k));
    }
  }

  /** The value of the lowest `c` triads of `m`. */
  function Low(m: nat, c: nat): nat {
    if c == 0 || m == 0 then 0 else m % 1000 + 1000 * Low(m / 1000, c - 1)
  }

  /** The words of the triads from scale `i` up add their value times 1000^i. */
  lemma {:induction false} RunWordsFrom(m: nat, i: nat, total: nat)
    requires 1 <= i <= |Scales|
    ensures Run(WordsFrom(m, i, Intended), Reading(total, 0))
         == Reading(total + Low(m, |Scales| - i) * Pow1000(i), 0)
    decreases |Scales| - i
  {
    if m != 0 && i < |Scales| {
      var k := m % 1000;
      var high := Low(m / 1000, |Scales| - i - 1);
      var hw := WordsFrom(m / 1000, i + 1, Intended);
      var g := if k != 0 then GroupWords(k, i, Intended) else [];
      var before := total + high * Pow1000(i + 1);
      assert Run(WordsFrom(m, i, Intended), Reading(total, 0)) == Run(g, Run(hw, Reading(total, 0))) by {
        WordsUnfold(m, i, Intended);
        RunAppend(hw, g, Reading(total, 0));
      }
      assert Run(hw, Reading(total, 0)) == Reading(before, 0) by {
        RunWordsFrom(m / 1000, i + 1, total);
      }
      assert Run(g, Reading(before, 0)) == Reading(before + k * Pow1000(i), 0) by {
        RunTriadAt(k, i, before);
      }
      assert before + k * Pow1000(i) == total + Low(m, |Scales| - i) * Pow1000(i) by {
        LowUnfold(m, |Scales| - i);
        PowUnfold(i);
        ScaleSum(total, high, k, Pow1000(i), Pow1000(i + 1), Low(m, |Scales| - i), before);
      }
    }
  }

  /** The words of the triad `k` at scale `i`, none when it is zero, add `k * 1000^i`. */
  lemma RunTriadAt(k: nat, i: nat, before: nat)
    requires k < 1000 && 1 <= i < |Scales|
    ensures Run(if k != 0 then GroupWords(k, i, Intended) else [], Reading(before, 0))
         == Reading(before + k * Pow1000(i), 0)
  {
    if k != 0 {
      RunScaledGroup(k, i, before);
    }
  }

  lemma LowUnfold(m: nat, c: nat)
    requires m != 0 && c > 0
    ensures Low(m, c) == m % 1000 + 1000 * Low(m / 1000, c - 1)
  {
  }

  lemma PowUnfold(i: nat)
    ensures Pow1000(i + 1) == 1000 * Pow1000(i)
  {
  }

  lemma ScaleSum(total: nat, high: nat, k: nat, p: nat, p1: nat, low: nat, before: nat)
    requires low == k + 1000 * high && p1 == 1000 * p && before == total + high * p1
    ensures before + k * p == total + low * p
  {
  }

  lemma MulSmall(x: int, d: int, e: int)
    requires d > 0 && -d < e < d && x * d == e
    ensures x == 0
  {
  }

  /** Quotient and remainder are unique. */
  lemma DivModUnique(n: int, d: int, q: int, r: int)
    requires d > 0 && 0 <= r < d && n == q * d + r
    ensures n / d == q && n % d == r
  {
    var q0, r0 := n / d, n % d;
    assert (q0 - q) * d == r - r0 by {
      assert q0 * d + r0 == q * d + r;
      assert (q0 - q) * d == q0 * d - q * d;
    }
    MulSmall(q0 - q, d, r - r0);
  }

  /** Splitting off the lowest triad of a remainder. */
  lemma ModSplit(m: nat, p: nat)
    requires p > 0
    ensures m % (1000 * p) == m % 1000 + 1000 * ((m / 1000) % p)
  {
    var q, r := m / 1000, m % 1000;
    var q2, r2 := q / p, q % p;
    assert m == q2 * (1000 * p) + (1000 * r2 + r) by {
      assert q == q2 * p + r2;
      assert 1000 * q == q2 * (1000 * p) + 1000 * r2;
    }
    assert 1000 * r2 + r < 1000 * p by {
      assert r2 <= p - 1;
      assert 1000 * r2 <= 1000 * p - 1000;
    }
    DivModUnique(m, 1000 * p, q2, 1000 * r2 + r);
  }

  lemma {:induction false} LowIsMod(m: nat, c: nat)
    ensures Low(m, c) == m % Pow1000(c)
  {
    if c > 0 && m > 0 {
      var p := Pow1000(c - 1);
      LowIsMod(m / 1000, c - 1);
      ModSplit(m, p);
      calc {
        Low(m, c);
        m % 1000 + 1000 * Low(m / 1000, c - 1);
        m % 1000 + 1000 * ((m / 1000) % p);
        m % (1000 * p);
      }
    } else if c == 0 {
      DivModUnique(m, 1, m, 0);
    } else {
      DivModUnique(0, Pow1000(c), 0, 0);
    }
  }

  /** The words of `numberToTRWords(n)` read back as `n`, or as its last
      fifteen digits when `n` has more: the scales end at TRİLYON. */
  lemma ReadsBack(n: int)
    ensures Read(PhraseWords(n, Intended)) == if n <= 0 then 0 else n % Pow1000(|Scales|)
  {
    if n <= 0 {
      RunOne(Zero, Reading(0, 0));
    } else {
      var k := n % 1000;
      var high := Low(n / 1000, |Scales| - 1);
      var hw := WordsFrom(n / 1000, 1, Intended);
      var g := if k != 0 then GroupWords(k, 0, Intended) else [];
      WordsUnfold(n, 0, Intended);
      RunAppend(hw, g, Reading(0, 0));
      RunWordsFrom(n / 1000, 1, 0);
      assert Run(hw, Reading(0, 0)) == Reading(high * 1000, 0);
      assert Run(g, Reading(high * 1000, 0)) == Reading(high * 1000, k) by {
        if k != 0 {
          assert TriadWords(k) + [] == TriadWords(k);
          RunTriad(k, high * 1000);
        }
      }
      assert Read(PhraseWords(n, Intended)) == high * 1000 + k;
      assert Low(n, |Scales|) == k + 1000 * high;
      LowIsMod(n, |Scales|);
    }
  }
  // ---------------------------------------------------------------------
  // Reading the rendered string back
  // ---------------------------------------------------------------------

  /** Every numeral word and what it means. */
  const Lexicon: map<string, Word> := map[
    "BİR" := One(1), "İKİ" := One(2), "ÜÇ" := One(3), "DÖRT" := One(4), "BEŞ" := One(5),
    "ALTI" := One(6), "YEDİ" := One(7), "SEKİZ" := One(8), "DOKUZ" := One(9),
    "ON" := Ten(1), "YİRMİ" := Ten(2), "OTUZ" := Ten(3), "KIRK" := Ten(4), "ELLİ" := Ten(5),
    "ALTMIŞ" := Ten(6), "YETMİŞ" := Ten(7), "SEKSEN" := Ten(8), "DOKSAN" := Ten(9),
    "YÜZ" := Hundred, "BİN" := Scale(1), "MİLYON" := Scale(2), "MİLYAR" := Scale(3),
    "TRİLYON" := Scale(4), "SIFIR" := Zero]

  /** The words named by the fields, if every field is a numeral word. */
  function ParseWords(fields: seq<string>): Option<seq<Word>> {
    if fields == [] then Some([])
    else if fields[0] !in Lexicon then None
    else match ParseWords(fields[1..])
      case None => None
      case Some(rest) => Some([Lexicon[fields[0]]] + rest)
  }

  /** A reader of Turkish numerals given a string: split at white space,
      recognise each word, and evaluate. */
  function ReadText(s: string): Option<nat> {
    match ParseWords(Split(s))
    case None => None
    case Some(ws) => Some(Read(ws))
  }

  lemma LexiconOnes(d: Digit)
    ensures Ones[d] in Lexicon && Lexicon[Ones[d]] == One(d)
  {
    if d == 1 {} else if d == 2 {} else if d == 3 {} else if d == 4 {} else if d == 5 {}
    else if d == 6 {} else if d == 7 {} else if d == 8 {} else {}
  }

  lemma LexiconTens(t: Digit)
    ensures Tens[t] in Lexicon && Lexicon[Tens[t]] == Ten(t)
  {
    if t == 1 {} else if t == 2 {} else if t == 3 {} else if t == 4 {} else if t == 5 {}
    else if t == 6 {} else if t == 7 {} else if t == 8 {} else {}
  }

  lemma LexiconScales(i: ScaleIndex)
    ensures Scales[i] in Lexicon && Lexicon[Scales[i]] == Scale(i)
  {
    if i == 1 {} else if i == 2 {} else if i == 3 {} else {}
  }

  /** Each word is recognised from its spelling: no two words are spelled alike. */
  lemma LexiconSpell(w: Word)
    ensures Spell(w) in Lexicon && Lexicon[Spell(w)] == w
  {
    match w
    case One(d) => LexiconOnes(d);
    case Ten(t) => LexiconTens(t);
    case Hundred =>
    case Scale(i) => LexiconScales(i);
    case Zero =>
  }

  lemma {:induction false} ParseSpelled(ws: seq<Word>)
    ensures ParseWords(Spelled(ws)) == Some(ws)
  {
    if ws != [] {
      LexiconSpell(ws[0]);
      ParseSpelled(ws[1..]);
      assert Spelled(ws)[1..] == Spelled(ws[1..]);
      assert ws == [ws[0]] + ws[1..];
    }
  }

  /** The rendering of some words reads back as those words do. */
  lemma ReadTextRender(ws: seq<Word>)
    requires ws != []
    ensures ReadText(Render(ws)) == Some(Read(ws))
  {
    SpelledWords(ws);
    SplitJoin(Spelled(ws));
    ParseSpelled(ws);
  }

  /** The triads above the fifth are dropped: the scales end at TRİLYON. */
  lemma {:induction false} GroupsFromTruncate(m: nat, i: nat, v: Variant)
    requires i <= |Scales|
    ensures GroupsFrom(m, i, v) == GroupsFrom(m % Pow1000(|Scales| - i), i, v)
    decreases |Scales| - i
  {
    var p := Pow1000(|Scales| - i);
    var m' := m % p;
    if i == |Scales| {
      GroupsFromDone(m, i, v);
      GroupsFromDone(m', i, v);
    } else {
      var q := Pow1000(|Scales| - i - 1);
      assert p == 1000 * q;
      assert m' % 1000 == m % 1000 && m' / 1000 == (m / 1000) % q by {
        ModSplit(m, q);
        DivModUnique(m', 1000, (m / 1000) % q, m % 1000);
      }
      assert GroupsFrom(m / 1000, i + 1, v) == GroupsFrom(m' / 1000, i + 1, v) by {
        GroupsFromTruncate(m / 1000, i + 1, v);
      }
      if m == 0 {
        assert m' == 0 by {
          DivModUnique(0, p, 0, 0);
        }
      } else if m' == 0 {
        GroupsUnfold(m, i, v);
        GroupsFromDone(0, i + 1, v);
        assert GroupsFrom(m, i, v) == [] + [];
      } else {
        GroupsUnfold(m, i, v);
        GroupsUnfold(m', i, v);
      }
    }
  }

  /** `numberToTRWords` keeps only the last fifteen digits of its argument,
      and gives the empty string when those are all zero. */
  lemma HighTriadsDropped(n: int, v: Variant)
    requires n > 0
    ensures InWords(n, v) == if n % Pow1000(|Scales|) == 0 then "" else InWords(n % Pow1000(|Scales|), v)
  {
    GroupsFromTruncate(n, 0, v);
    if n % Pow1000(|Scales|) == 0 {
      GroupsFromDone(0, 0, v);
    }
  }

  /** The string `numberToTRWords(n)` returns reads back as `n` (as its
      last fifteen digits, when it has more). */
  lemma InWordsReadsBack(n: int)
    ensures n <= 0 ==> ReadText(InWords(n, Intended)) == Some(0)
    ensures n > 0 && n % Pow1000(|Scales|) != 0 ==> ReadText(InWords(n, Intended)) == Some(n % Pow1000(|Scales|))
    ensures n > 0 && n % Pow1000(|Scales|) == 0 ==> InWords(n, Intended) == ""
  {
    InWordsSpelled(n, Intended);
    ReadsBack(n);
    if n > 0 && n % Pow1000(|Scales|) == 0 {
      HighTriadsDropped(n, Intended);
    } else if n > 0 {
      assert PhraseWords(n, Intended) != [];
      ReadTextRender(PhraseWords(n, Intended));
    } else {
      ReadTextRender(PhraseWords(n, Intended));
    }
  }

  /** Different amounts below 10^15 get different words. */
  lemma InWordsInjective(a: int, b: int)
    requires 0 <= a < Pow1000(|Scales|) && 0 <= b < Pow1000(|Scales|)
    requires InWords(a, Intended) == InWords(b, Intended)
    ensures a == b
  {
    InWordsReadsBack(a);
    InWordsReadsBack(b);
    DivModUnique(a, Pow1000(|Scales|), 0, a);
    DivModUnique(b, Pow1000(|Scales|), 0, b);
  }
  // ---------------------------------------------------------------------
  // Examples, and the thousand elision as written
  // ---------------------------------------------------------------------

  /** An example of `numberToTRWords` follows from the words it renders. */
  lemma InWordsExample(n: int, v: Variant, ws: seq<Word>, text: string)
    requires PhraseWords(n, v) == ws && Render(ws) == text
    ensures InWords(n, v) == text
  {
    InWordsSpelled(n, v);
  }

  /** The words of one thousand: the scale word alone as intended, and twice as written. */
  lemma WordsThousand(v: Variant)
    ensures PhraseWords(1000, v) == if v == AsWritten then [Scale(1), Scale(1)] else [Scale(1)]
  {
    WordsUnfold(1000, 0, v);
    WordsUnfold(1, 1, v);
  }

  /** One thousand is "BİN", not "BİR BİN". */
  lemma ThousandIntended()
    ensures InWords(1000, Intended) == "BİN"
  {
    WordsThousand(Intended);
    RenderOne(Scale(1));
    InWordsExample(1000, Intended, [Scale(1)], "BİN");
  }

  lemma RenderBinBin()
    ensures Render([Scale(1), Scale(1)]) == "BİN BİN"
  {
    SpelledAt([Scale(1), Scale(1)], 0);
    SpelledAt([Scale(1), Scale(1)], 1);
    assert Spelled([Scale(1), Scale(1)]) == ["BİN", "BİN"];
  }

  /** "BİN BİN" reads as two thousand. */
  lemma ReadBinBin()
    ensures Read([Scale(1), Scale(1)]) == 2000
  {
    RunAppend([Scale(1)], [Scale(1)], Reading(0, 0));
    RunOne(Scale(1), Reading(0, 0));
    RunOne(Scale(1), Reading(1000, 0));
    assert [Scale(1)] + [Scale(1)] == [Scale(1), Scale(1)];
  }

  /** As written, the elision puts "BİN" in the chunk and the scale word
      repeats it: one thousand comes out as "BİN BİN", which reads as two
      thousand. */
  lemma ThousandAsWritten()
    ensures InWords(1000, AsWritten) == "BİN BİN"
    ensures ReadText(InWords(1000, AsWritten)) == Some(2000)
  {
    WordsThousand(AsWritten);
    RenderBinBin();
    InWordsExample(1000, AsWritten, [Scale(1), Scale(1)], "BİN BİN");
    ReadTextRender([Scale(1), Scale(1)]);
    ReadBinBin();
  }

  /** The words of one million: one, million. */
  lemma WordsMillion(v: Variant)
    ensures PhraseWords(1000000, v) == [One(1), Scale(2)]
  {
    WordsUnfold(1, 2, v);
    assert TriadWords(1) == [One(1)];
    assert WordsFrom(1, 2, v) == [One(1), Scale(2)];
    WordsUnfold(1000, 1, v);
    WordsUnfold(1000000, 0, v);
  }

  lemma RenderBirMilyon()
    ensures Render([One(1), Scale(2)]) == "BİR MİLYON"
  {
    SpelledAt([One(1), Scale(2)], 0);
    SpelledAt([One(1), Scale(2)], 1);
    assert Spelled([One(1), Scale(2)]) == ["BİR", "MİLYON"];
  }

  /** The elision is at the thousand scale only: one million keeps "BİR". */
  lemma MillionKeepsOne(v: Variant)
    ensures InWords(1000000, v) == "BİR MİLYON"
  {
    WordsMillion(v);
    RenderBirMilyon();
    InWordsExample(1000000, v, [One(1), Scale(2)], "BİR MİLYON");
  }

  /** Zero and every negative number read "SIFIR". */
  lemma NotPositiveIsZero(n: int, v: Variant)
    requires n <= 0
    ensures InWords(n, v) == "SIFIR" && ReadText(InWords(n, v)) == Some(0)
  {
    InWordsReadsBack(n);
  }

  /** The words of 3250: three, thousand, two, hundred, fifty. */
  lemma Words3250()
    ensures PhraseWords(3250, Intended) == [One(3), Scale(1), One(2), Hundred, Ten(5)]
  {
    WordsUnfold(3, 1, Intended);
    assert TriadWords(3) == [One(3)];
    assert WordsFrom(3, 1, Intended) == [One(3), Scale(1)];
    WordsUnfold(3250, 0, Intended);
    assert TriadWords(250) == [One(2), Hundred, Ten(5)];
    assert GroupWords(250, 0, Intended) == [One(2), Hundred, Ten(5)];
  }

  lemma Spelled3250()
    ensures Spelled([One(3), Scale(1), One(2), Hundred, Ten(5)]) == ["ÜÇ", "BİN", "İKİ", "YÜZ", "ELLİ"]
  {
    var ws := [One(3), Scale(1), One(2), Hundred, Ten(5)];
    SpelledAt(ws, 0);
    SpelledAt(ws, 1);
    SpelledAt(ws, 2);
    SpelledAt(ws, 3);
    SpelledAt(ws, 4);
  }

  lemma Join250()
    ensures Join(["İKİ", "YÜZ", "ELLİ"]) == "İKİ YÜZ ELLİ"
  {
    var p := ["İKİ", "YÜZ", "ELLİ"];
    assert p[1..][1..] == ["ELLİ"];
    assert Join(p[1..]) == "YÜZ ELLİ";
  }

  lemma Join1250()
    ensures Join(["BİN", "İKİ", "YÜZ", "ELLİ"]) == "BİN İKİ YÜZ ELLİ"
  {
    var p := ["BİN", "İKİ", "YÜZ", "ELLİ"];
    Join250();
    assert p[1..] == ["İKİ", "YÜZ", "ELLİ"];
  }

  lemma Join3250()
    ensures Join(["ÜÇ", "BİN", "İKİ", "YÜZ", "ELLİ"]) == "ÜÇ BİN İKİ YÜZ ELLİ"
  {
    var p := ["ÜÇ", "BİN", "İKİ", "YÜZ", "ELLİ"];
    Join1250();
    assert p[1..] == ["BİN", "İKİ", "YÜZ", "ELLİ"];
  }

  /** The example the source gives: 3250 is "ÜÇ BİN İKİ YÜZ ELLİ". */
  lemma Example3250()
    ensures InWords(3250, Intended) == "ÜÇ BİN İKİ YÜZ ELLİ"
  {
    Words3250();
    Spelled3250();
    Join3250();
    InWordsExample(3250, Intended, [One(3), Scale(1), One(2), Hundred, Ten(5)], "ÜÇ BİN İKİ YÜZ ELLİ");
  }
}
