# PDF form helpers, modelled in Dafny

The service fills in four PDF templates:
- the ÜCRET payment form (`/generate`);
- the KART card (`/generate2`);
- the BURS scholarship form (`/generate3`);
- the DİPLOMA form (`/diploma`).

The ÜCRET, BURS and DİPLOMA handlers each print an amount in digits and in words into calibrated boxes. The KART handler prints a name, a wrapped address and a date.

Their computational core is a small set of helpers in `index.js`. This project
models them and proves what they promise.

- `numberToTRWords` writes an amount in Turkish words ("ÜÇ BİN İKİ YÜZ ELLİ").
  - It renders base-1000 triads with the scale words BİN, MİLYON, MİLYAR and TRİLYON.
  - It is meant to write 1000 as "BİN", not "BİR BİN". As written it gives "BİN BİN" (see Findings). The model uses the intended rendering and keeps the written one beside it.
  - Module `TurkishNumbers`, file `number_words.dfy`.
  - The model has an imperative loop (`NumberToWords`) proved against a specification function (`InWords`).
  - A word-level numeral reader (`Read`, `ReadText`) is the independent partner. It proves that the words mean the number.
- `wrapByWords` wraps the address into lines of at most 30 characters. It cuts over-long words into pieces.
  - Module `Wrap`, file `wrap.dfy`.
  - The `for` loop is a method proved against the function `Wrap`. The inner chunking loop is a method proved against the function `Chunks`.
- `parseMiktarToInt` reads the amount typed by the user ("5.000" → 5000).
  - It removes whitespace and dots, turns commas into decimal points, then applies JavaScript `parseFloat`, the finiteness test and `Math.round`.
  - Module `Amount`, file `amount.dfy`.
  - `parseFloat` is modelled on exact reals: sign, digits, fraction, exponent, "Infinity", and overflow to Infinity at the double-precision limit.
  - A dot-grouped printer of whole numbers (`Grouped`) is its partner.
- `rectFromCornersMM_T2` and its copies `rectFromCornersMM` (in the ÜCRET, BURS and DİPLOMA handlers) turn four hand-calibrated corner points into an axis-aligned box.
  - `drawIntoBoxMM` erases such a box and draws a text in it. It converts millimetres to points with a scale taken from the page size, and lifts the text by 0.5 mm.
  - The card's date box uses a different conversion: the fixed `MM_TO_PT` factor and `topMmToPdfYpt` on an A4 height. It pads the box by 0.8 mm on all four sides and moves the box and the text down by 3 points.
  - The card's address band grows downwards with the number of wrapped lines.
  - Module `Geometry`, file `geometry.dfy`, over exact reals. Font metrics and the page size are parameters.
- Module `Text` (`text.dfy`) gives the JavaScript string operations these helpers use:
  - the `\s` whitespace class, `trim`, `split(/\s+/)`;
  - `join(' ')`, `filter(Boolean)`, and whitespace collapsing.

Strings are sequences of characters. Every character of the Turkish word tables is also a single UTF-16 unit in JavaScript, so lengths agree for them.

## Model

| member | source | states |
|---|---|---|
| TurkishNumbers.NumberToWords | index.js:619-647 | the loop that unshifts one group per non-zero triad, for at most five triads, computes `InWords(n)` with the thousand elision as intended; invariant: the triads still to render, placed before the groups already rendered, give all groups of the input |
| TurkishNumbers.UnshiftTriad | index.js:637-643 | one loop pass moves the triad `m % 1000` from the part still to render to the front of the rendered groups; a zero triad adds nothing |
| TurkishNumbers.RenderGroup | index.js:638-642 | the group text of a non-zero triad `k` at scale `i` (chunk, elided for the thousand triad equal to one, then the scale word) reads back as exactly `k * 1000^i` |
| TurkishNumbers.Three | index.js:626-633 | `three(x)` is empty exactly when the triad `x % 1000` is zero. `ThreeSpellsTriad` gives its words |
| TurkishNumbers.ThreeSpellsTriad | index.js:626-633 | `three(k)` for k < 1000 spells, in order, the hundreds ("YÜZ" alone for one hundred), the tens word and the ones word, non-empty parts joined by single spaces |
| TurkishNumbers.InWordsSpelled | index.js:636-646 | the result spells the word sequence: non-zero triads most significant first, each followed by its scale word, zero triads skipped, "SIFIR" for n ≤ 0 |
| TurkishNumbers.InWordsIsPhrase | index.js:646 | the result has no leading or trailing whitespace and single spaces between words |
| TurkishNumbers.NotPositiveIsZero | index.js:620-621 | zero and every negative input give "SIFIR", which reads as 0 |
| TurkishNumbers.ReadsBack | index.js:619-647 | a Turkish reader evaluates the words of n to n mod 10^15 (n > 0) and to 0 otherwise |
| TurkishNumbers.InWordsReadsBack | index.js:619-647 | the rendered text parses back into words whose value is n mod 10^15; a multiple of 10^15 renders as the empty string |
| TurkishNumbers.InWordsInjective | index.js:619-647 | distinct amounts below 10^15 give distinct texts |
| TurkishNumbers.HighTriadsDropped | index.js:636 | the loop stops after TRİLYON, so n renders as n mod 10^15 |
| TurkishNumbers.ThousandIntended | index.js:640 | 1000 renders as "BİN", not "BİR BİN" |
| TurkishNumbers.ThousandAsWritten | index.js:640-641 | as written, 1000 renders as "BİN BİN", which reads as 2000 |
| TurkishNumbers.MillionKeepsOne | index.js:640 | the elision is at the thousand scale only: 1000000 renders as "BİR MİLYON" |
| TurkishNumbers.Example3250 | index.js:618-619 | 3250 renders as "ÜÇ BİN İKİ YÜZ ELLİ" |
| Wrap.WrapByWords | index.js:590-607 | the word loop computes `Wrap(str, limit)`; invariant: the lines and the open line are the packing of the words seen so far |
| Wrap.PlaceWord | index.js:596-604 | one pass: an over-long word flushes the open line and is pushed in chunks; otherwise the word starts, extends or replaces the open line |
| Wrap.PushChunks | index.js:599 | the chunking loop appends the `limit`-sized slices of the word, the last one shorter |
| Wrap.ChunksOfWord | index.js:599 | the chunks of a word concatenate back to it; each is non-empty and at most `limit` long |
| Wrap.WrapFits | index.js:590-607 | every line has at most `limit` characters; for non-empty input no line is empty |
| Wrap.WrapBlank | index.js:591-593 | empty input gives one empty line; whitespace-only input gives no line |
| Wrap.WrapKeepsText | index.js:590-607 | the lines hold exactly the non-whitespace characters of the input, in order |
| Wrap.WrapKeepsWords | index.js:592-605 | every line is words separated by single spaces; the words of the lines, in order, are the input's words, each whole when it fits in `limit` and cut into its chunks otherwise |
| Text.SplitJoin | index.js:592 | splitting words joined by single spaces gives the words back |
| Text.SplitKeepsText | index.js:592 | `split(/\s+/)` keeps every non-whitespace character in order |
| Text.TrimBlank | index.js:592 | `trim` gives the empty string exactly for whitespace-only input |
| Amount.MiktarToInt | index.js:610-616 | a non-string gives 0; the result lies within the double range; a negative result needs a leading minus in the cleaned text. `MiktarNoDigits`, `MiktarGrouped`, `MiktarComma` and `MiktarReadsGrouped` give its values |
| Amount.Clean | index.js:612 | the cleaned text is no longer than the input and holds no comma. `CleanGrouping` gives its value on grouped digits |
| Amount.ParseFloat | index.js:613 | a finite result lies strictly inside the double range, and a negative one comes only from a leading minus. `ParseWhole` and `ParseDecimal` give its values |
| Amount.Round | index.js:615 | `Math.round` gives an integer within one half of its argument, ties upward; `RoundNearest` shows no other integer qualifies, and the examples below show the ties |
| Amount.MiktarNoDigits | index.js:611-614 | a non-string, or a string without digits, gives 0 |
| Amount.MiktarGrouped | index.js:610-616 | a string of digits, dots and whitespace gives the integer formed by its digits alone, or 0 past the double range |
| Amount.MiktarComma | index.js:612-615 | with a comma, the digits before it are the integer part and those after it the fraction; the signed value is rounded half up, and 0 is given past the double range |
| Amount.MiktarReadsGrouped | index.js:176-177 | an amount printed with tr-TR dot grouping ("1.234.567") reads back as the same amount |
| Amount.ParseWhole | index.js:613 | `parseFloat` of an optionally signed digit string is its value, or Infinity past the double range |
| Amount.ParseDecimal | index.js:613 | `parseFloat` of digits, a point and digits is integer part plus fraction |
| Amount.CleanGrouping | index.js:612 | removing whitespace and dots from digits, dots and whitespace leaves the digits alone |
| Amount.RoundNearest | index.js:615 | `Math.round` gives the only integer within one half, ties upward: any integer n with x − ½ < n ≤ x + ½ is `Round(x)` |
| Amount.FiveThousandDotted | index.js:176 | "5.000" reads as 5000 |
| Amount.FiveWithComma | index.js:176 | "5,000" reads as 5: the comma is the decimal point |
| Amount.HalfRoundsUp | index.js:615 | "5,5" reads as 6 |
| Amount.NegativeHalfRoundsUp | index.js:615 | "-2,5" reads as -2: halves round toward +∞ |
| Geometry.RectFromCorners | index.js:249-257 | the box has non-negative width and height. `RectCovers`, `RectTight` and `SameCornersSameRect` characterise it as the smallest box holding the four corners |
| Geometry.DrawIntoBox | index.js:193-216 | a centred text has its horizontal centre at the centre of the white rectangle; its vertical centre is the rectangle's, lifted by 0.5 mm. `EraseIsBox`, `TextPlaced` and `EraseCoversCorners` place the rectangle |
| Geometry.DateBox | index.js:312-343 | the white rectangle is 25.6 mm by 3.3 mm at `MM_TO_PT`, and its top edge is 3 points below the calibrated top at 156.2 mm. `DateBoxMm` and `DateCentred` place it and the text |
| Geometry.AddressBand | index.js:302-306 | the band's top edge stays at `adresPos.y + 12` whatever the line count; the band is at least 14 points tall. `BandHoldsLines` shows every line lies in it |
| Geometry.Min4 | index.js:252-254 | `Math.min(...xs)` of four values is one of them and at most each of them |
| Geometry.Max4 | index.js:253-255 | `Math.max(...xs)` of four values is one of them and at least each of them |
| Geometry.RectCovers | index.js:249-257 | the box contains all four corners |
| Geometry.RectTight | index.js:249-257 | every box containing the four corners contains this one, so it is the smallest |
| Geometry.SameCornersSameRect | index.js:249-257 | the box depends only on the set of corner points: any permutation of the corners gives the same box |
| Geometry.AlignedUnchanged | index.js:183-191 | the corners of an axis-aligned box give that box back |
| Geometry.PtPerMmX | index.js:152 | points per mm across: the page width over 210, so 210 mm span the page; positive on a page of positive width. Used by `MmX`, `EraseIsBox` and `PointOnPage` |
| Geometry.PtPerMmY | index.js:153 | points per mm down: the page height over 297, so 297 mm span the page; positive on a page of positive height. Used by `PdfY` and `DrawIntoBox`'s 0.5 mm lift |
| Geometry.MmX | index.js:154 | mm × page width / 210; `PageEdges` and `EraseIsBox` state what it maps |
| Geometry.PdfY | index.js:155 | page height − topMm × page height / 297; `PageEdges` and `EraseIsBox` state what it maps |
| Geometry.PageEdges | index.js:152-155 | 0 and 210 mm across map to 0 and the page width; 0 and 297 mm down map to the page's top and bottom |
| Geometry.EraseIsBox | index.js:193-205 | the white rectangle of `drawIntoBoxMM` is the box carried onto the page: same left, right, top and bottom edges |
| Geometry.TextPlaced | index.js:206-215 | a centred text has equal room left and right; a left-aligned one starts 0.8 mm in; vertically the text is centred, then lifted by 0.5 mm |
| Geometry.EraseCoversCorners | index.js:193-205 | on a page of positive size every calibrated corner falls inside the white rectangle |
| Geometry.Mm2Pt | index.js:247 | mm × `MM_TO_PT`: one inch, 25.4 mm, is 72 points to within 10^-4; non-negative lengths stay non-negative. Used by `DateBox` |
| Geometry.TopMmToPdfY | index.js:248 | (297 − topMm) mm in points: the bottom of an A4 page is at 0, its top at 297 mm in points. Used by `DateBox` |
| Geometry.DateBoxMm | index.js:260-265 | the fixed date-box calibration spans 92.1–117.7 mm by 156.2–159.5 mm |
| Geometry.DateCentred | index.js:312-343 | the date text is centred both ways in the white rectangle: the 0.8 mm inner padding is the same on every side, so it cancels |
| Geometry.BandHoldsLines | index.js:298-308 | the address band's top edge stays at `adresPos.y + 12` for any line count; its bottom is 2 points below the last baseline, so every line lies in the band |

## Left out

- HTTP routes, the bot-key and admin-password checks, SQLite logging, template and font loading, and filename building are I/O and are not part of this model.
- Drawing and font metrics come from a PDF library. The model returns the positions it would draw at and takes the text width and height as parameters.
- Amount.Grouped: a reference model of `Intl.NumberFormat('tr-TR')` for whole numbers. It covers dot grouping only, not the locale library.
- The call at index.js:178 is not part of this model. It removes the spaces from the words and appends " TL".
- TurkishNumbers.NumberToWords: takes an integer. The clamp and floor of a fractional or NaN input are left out, and so is double-precision loss above 2^53.
- Wrap.WrapByWords: requires `limit >= 1`. For a limit of 0 or less, the source's chunking loop never ends on a non-empty word. Its only caller passes 30.
- Amount.MiktarToInt: values are exact reals. The 53-bit rounding of `parseFloat` is left out. Only overflow to Infinity, at 2^1024 − 2^970, is modelled.
- Wrap.WrapFits: a character outside the Basic Multilingual Plane counts as one character here but as two UTF-16 units in the source's `length` and `slice`.
- Wrap.WrapByWords: for such characters the source may break lines earlier than the model, since its `length` counts a surrogate pair as two.
- Wrap.PlaceWord: for such characters the source's "fits" and "over-long" tests count a surrogate pair as two, so it may pick another branch than the model.
- Wrap.PushChunks: for such characters the source's `slice(i, i + limit)` cuts by UTF-16 units and can split a surrogate pair in half; the model's chunks hold whole characters.
- Geometry: every millimetre-to-point conversion is on exact reals, not doubles. Math.min/Math.max with a NaN coordinate are left out.

## Findings

| source | as written | input that shows it | evidently intended | confidence | as-written member | corrected member |
|---|---|---|---|---|---|---|
| index.js:640-641 | for the thousand triad equal to one, the chunk is set to "BİN" and then joined with the scale word "BİN" | 1000 (any n with n / 1000 mod 1000 == 1, e.g. 1500) gives "BİN BİN", read as 2000 | "BİN" alone, as the comment on that line says | not executed | TurkishNumbers.ThousandAsWritten | TurkishNumbers.ThousandIntended |
