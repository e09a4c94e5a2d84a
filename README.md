# Banned-word rewriter and script copy text, in Dafny

This project models two parts of a short-video script generator. Both are modelled in Dafny and the model's properties are proved.

1. **The banned-word rewriter** (`utils/filterBannedWords.ts`). A fixed table maps risky terms to safer ones. `filterText` does two things:
   - it sorts the keys longest first;
   - for each key in that order, it replaces every case-insensitive, `\b`-delimited occurrence in the running text.

   `filterScripts` applies `filterText` to every text field of every script and every scene. `escapeRegExp` escapes a key before it is put into the pattern.
2. **The copy-to-clipboard text** of a script card (`components/ScriptCard.tsx`). `formatScriptForCopy` builds the text by appending to a string, scene by scene. The card's header colour is picked with `colors[index % colors.length]`.

Modules, one file each:

- `Wrappers` (`wrappers.dfy`): `Option`.
- `Types` (`script_types.dfy`): the `Script` and `ScriptScene` records of `types.ts`. Optional fields are `Option`s.
- `RegExpEscape` (`regexp_escape.dfy`): `escapeRegExp`. `LiteralOf` reads a pattern back as the literal text it stands for.
- `KeyOrder` (`key_order.dfy`): the key order produced by the stable built-in sort. It is modelled as an insertion sort, with its sortedness, permutation and stability proved. Those three properties determine the order uniquely.
- `TextMatch` (`text_match.dfy`): one `replace(/\bkey\b/gi, repl)` pass, modelled on characters:
  - it is a leftmost, non-overlapping scan for a case-insensitive literal key;
  - each occurrence must pass an *edge rule*.
- `FilterBannedWords` (`filter_banned_words.dfy`):
  - the table as the constant `BannedWordMap`, with all 98 entries in declaration order;
  - the pass schedule;
  - `filterText` as a method with a loop, proved equal to the specification function `FilteredText`;
  - `filterScripts`.
- `ScriptCard` (`script_card.dfy`):
  - `formatScriptForCopy` as a method with a loop, proved equal to the layout `CopyText`;
  - the header colour pick, with JavaScript's truncating `%`.
- `Scenarios` (`scenarios.dfy`): worked cases on small tables, each made of entries of the real table at their declared positions.

### Edge rules

Every operation takes the edge rule as a parameter:

- `JsWordBoundary` is the code as written. It is JavaScript's `\b` without the `u` flag: a change between an ASCII word character `[A-Za-z0-9_]` and anything else. Vietnamese letters such as `đ` or `á` count as "anything else".
- `LetterIsolation` is the evidently intended rule. The occurrence must be non-empty, and no letter or digit of the Latin script may stand before or after it. See "## Findings".

The application's behaviour is `FilteredText(JsWordBoundary, BannedWordMap, ·)`. The table is a parameter everywhere, so the properties hold for any table.

### The code's stated intent and its behaviour

Where they part, the model follows the code.

- The comment at utils/filterBannedWords.ts:146 says `\b` is there to avoid replacing part of another word. The code uses `\b` without the `u` flag, which only knows ASCII word characters. It therefore cannot find keys that begin or end with a non-ASCII letter (see "## Findings"), and it accepts matches glued to a Vietnamese letter.
- The comment at utils/filterBannedWords.ts:140 only asks for long keys before short ones. The order of equally long keys is the one the stable sort keeps: declaration order. `KeyOrder.SortByLength` and `FilterBannedWords.ScheduleOrder` state it.

## Model

| member | source | states |
|---|---|---|
| RegExpEscape.EscapeRegExp | utils/filterBannedWords.ts:126-128 | the escaped text is one character longer for each regex syntax character in the input |
| RegExpEscape.EscapeIsLiteral | utils/filterBannedWords.ts:127 | dropping the inserted backslashes gives back the input: the escaped key is a pattern for exactly the key |
| RegExpEscape.LiteralIsEscape | utils/filterBannedWords.ts:127 | conversely, a pattern that stands literally for a text is that text's escape |
| RegExpEscape.EscapeKeepsPlainText | utils/filterBannedWords.ts:127 | a text without syntax characters is left unchanged |
| RegExpEscape.EscapeEighteenPlus | utils/filterBannedWords.ts:114 | the key '18+' becomes `18\+`, which stands for '18+' literally |
| KeyOrder.InsertPermutes | utils/filterBannedWords.ts:141 | inserting a key adds exactly that key to the multiset |
| KeyOrder.InsertKeepsSorted | utils/filterBannedWords.ts:141 | inserting into a list sorted by non-increasing length keeps it sorted |
| KeyOrder.InsertIsStable | utils/filterBannedWords.ts:141 | the inserted key goes after every key of its own length |
| KeyOrder.SortByLength | utils/filterBannedWords.ts:141 | the sort gives non-increasing lengths and a permutation of the keys, and keeps the keys of each length in their original order |
| KeyOrder.StableOrderIsUnique | utils/filterBannedWords.ts:141 | two sequences that are both sorted by length, with the same keys of each length in the same order, are equal |
| TextMatch.Fold | utils/filterBannedWords.ts:147 | case folding keeps a character an ASCII word character, or a letter, exactly when it was one |
| TextMatch.SameIgnoringCaseIff | utils/filterBannedWords.ts:147 | two strings are equal up to case if and only if they have the same length and every pair of characters folds to the same character |
| TextMatch.IsBoundary | utils/filterBannedWords.ts:147 | `\b` at a position: exactly one of the characters before and at that position is an ASCII word character, the text's ends counting as non-word |
| TextMatch.MatchAt | utils/filterBannedWords.ts:146-147 | `\bkey\b` with the `i` flag matches at a position: the key occurs there up to case, and the edge rule holds at both ends of the occurrence |
| TextMatch.ReplaceAll | utils/filterBannedWords.ts:148 | `text.replace(regex, replacement)` with the global flag: a left-to-right scan that replaces each match, skips past it and copies every other character |
| TextMatch.ScanCopies | utils/filterBannedWords.ts:148 | a stretch without a match is copied unchanged |
| TextMatch.ReplaceAllNoMatch | utils/filterBannedWords.ts:148 | a text with no match anywhere is returned unchanged |
| TextMatch.ReplaceFromLeftmost | utils/filterBannedWords.ts:148 | leftmost first: the text before the first match is copied and the match becomes the replacement, then the scan resumes after the match |
| TextMatch.ReplaceAllFirstMatch | utils/filterBannedWords.ts:148 | whenever the pattern matches somewhere, there is a leftmost match, and the output is the text before it, then the replacement, then the scan resumed after it |
| TextMatch.WordEdgedMatch | utils/filterBannedWords.ts:146-147 | for a key whose first and last characters are ASCII word characters, `\b` matches if and only if the key occurs there and no word character touches it on either side |
| TextMatch.InsideWordNotMatched | utils/filterBannedWords.ts:146-147 | an occurrence that continues into a longer ASCII word (such as 'hot' in "hotel") is never a match |
| TextMatch.NonWordEdgeNeedsWordNeighbour | utils/filterBannedWords.ts:147 | as written, a key with a non-ASCII-word first or last character matches only where a word character touches that edge |
| TextMatch.StandaloneKeyAsWritten | utils/filterBannedWords.ts:147-148 | as written, a key that is the whole text is replaced if and only if both of its edge characters are ASCII word characters |
| TextMatch.StandaloneKeyCorrected | utils/filterBannedWords.ts:146-148 | under the corrected rule, a key that is the whole text is always replaced |
| TextMatch.MatchIgnoresCase | utils/filterBannedWords.ts:147 | two texts that differ only in case have matches at the same positions, under either rule |
| TextMatch.EmptyTextNoMatch | utils/filterBannedWords.ts:148 | the empty text has no match and is returned unchanged |
| FilterBannedWords.MapSections | utils/filterBannedWords.ts:7-119 | `BANNED_WORD_MAP` is the seven sections of the object literal one after another, 98 entries in all, each at its declared place |
| FilterBannedWords.Lookup | utils/filterBannedWords.ts:144 | `BANNED_WORD_MAP[bannedWord]`: the replacement declared with the first entry whose key is the given one |
| FilterBannedWords.LookupFinds | utils/filterBannedWords.ts:144 | with distinct keys, looking up a declared key gives its declared replacement |
| FilterBannedWords.LookupIsDeclared | utils/filterBannedWords.ts:144 | every lookup returns a pair that is declared in the table |
| FilterBannedWords.Schedule | utils/filterBannedWords.ts:141-144 | the passes of filterText: each key of the sorted key list, paired with its replacement |
| FilterBannedWords.ScheduleOrder | utils/filterBannedWords.ts:141 | the passes visit the keys in non-increasing length, equally long keys in declaration order, each key as often as it is declared |
| FilterBannedWords.LongerKeyRunsFirst | utils/filterBannedWords.ts:140-141 | a longer key's pass always comes before a shorter key's pass |
| FilterBannedWords.ScheduleCoversTable | utils/filterBannedWords.ts:141-144 | there is one pass per entry, each pass is a declared (key, replacement) pair, and with distinct keys every entry gets a pass |
| FilterBannedWords.ApplyPassesAppend | utils/filterBannedWords.ts:143-149 | cascading: running p and then q is running q on the output of p |
| FilterBannedWords.ApplyPassesStep | utils/filterBannedWords.ts:148 | one more pass rewrites the output of the passes before it |
| FilterBannedWords.ApplyPassesClean | utils/filterBannedWords.ts:143-149 | a text that no key matches goes through every pass unchanged |
| FilterBannedWords.FilteredText | utils/filterBannedWords.ts:136-152 | filterText as a value: every pass of the schedule applied in order to the running text |
| FilterBannedWords.FilteredTextOfEmpty | utils/filterBannedWords.ts:137 | the empty text is returned unchanged |
| FilterBannedWords.FilteredTextOfClean | utils/filterBannedWords.ts:143-151 | a text that no key of the table matches is returned unchanged |
| FilterBannedWords.FilterText | utils/filterBannedWords.ts:136-152 | the loop over the sorted keys returns exactly the scheduled passes applied in order to the running text |
| FilterBannedWords.FilterScene | utils/filterBannedWords.ts:167-170 | a scene with its visual and its voiceover filtered |
| FilterBannedWords.FilterScript | utils/filterBannedWords.ts:161-171 | a script with title, hook, cta and every scene filtered, postContent filtered when present and non-empty, the other fields copied |
| FilterBannedWords.FilterScripts | utils/filterBannedWords.ts:159-161 | an absent batch gives the empty sequence, and a batch gives a sequence of the same length |
| FilterBannedWords.FilterScriptsFields | utils/filterBannedWords.ts:161-171 | in each script:<br>- title, hook, cta, every visual and every voiceover are filtered;<br>- the scenes keep their number and order;<br>- id, hashtags and saved are copied unchanged |
| FilterBannedWords.PostContentGuardIsHarmless | utils/filterBannedWords.ts:166 | postContent is filtered when present; absent or empty postContent comes back as it was |
| FilterBannedWords.FilterScriptOfClean | utils/filterBannedWords.ts:161-171 | a script with no matching text in any field is returned unchanged |
| FilterBannedWords.FilterScriptsKeepsCleanScripts | utils/filterBannedWords.ts:159-173 | every script with no matching text is returned unchanged at its position, whatever the other scripts hold |
| FilterBannedWords.FilterScriptsOfClean | utils/filterBannedWords.ts:159-173 | a batch in which nothing matches comes back identical: filtering already-filtered clean output changes nothing |
| ScriptCard.JsRemainder | components/ScriptCard.tsx:39 | JavaScript's `%`: the dividend is the truncated quotient times the divisor plus the remainder, the remainder is smaller than the divisor in size and has the dividend's sign; these fix its value |
| ScriptCard.HeaderColor | components/ScriptCard.tsx:39 | `colors[index % colors.length]`: the colour at the remainder, undefined when the remainder is not an index of the array |
| ScriptCard.HeaderColorDefined | components/ScriptCard.tsx:9-13 | a card index of zero or more always picks one of the three colours, namely Colors[index % 3], and the colours repeat every three cards; a negative index picks a colour only when it is a multiple of three |
| ScriptCard.Decimal | components/ScriptCard.tsx:23 | the scene number as `${i + 1}` writes it: its decimal digits |
| ScriptCard.DecimalRoundTrip | components/ScriptCard.tsx:23 | the scene number is rendered as decimal digits with no leading zero, and reads back as the number |
| ScriptCard.JoinLayout | components/ScriptCard.tsx:18-29 | between an opening and a closing, the joined parts sit one after another: part i starts right after the parts before it |
| ScriptCard.JoinSplit | components/ScriptCard.tsx:22-26 | the joined scene blocks split at any scene into the blocks before it, its own block and the blocks after it |
| ScriptCard.CopyText | components/ScriptCard.tsx:18-29 | the copy text as a value: the opening (title, hook, scenes heading), one block per scene, then the closing (call to action) |
| ScriptCard.FormatScriptForCopy | components/ScriptCard.tsx:18-29 | the appends produce the opening, then one block per scene in order, then the closing |
| ScriptCard.CopyTextFrame | components/ScriptCard.tsx:18-29 | for any number of scenes, including none, the text begins with the bold title, the hook section and the scenes heading, and ends with the call-to-action section, with no trailing newline |
| ScriptCard.CopyTextLayout | components/ScriptCard.tsx:22-26 | scene i's block, numbered i + 1, sits right after the opening and the blocks of the scenes before it |
| ScriptCard.CopyTextIgnoresOtherFields | components/ScriptCard.tsx:18-29 | id, saved, hashtags and postContent contribute nothing, and the length is the sum of the section lengths |
| ScriptCard.CopyOfFilteredScript | App.tsx:122 | for a filtered card, the opening of the copied text holds the filtered title and hook, the closing holds the filtered call to action, and each scene holds its filtered visual and voiceover |
| Scenarios.ScenarioTablesFromTheMap | utils/filterBannedWords.ts:9-79 | each table of the worked cases is made of entries of `BANNED_WORD_MAP`, at their declared positions |
| Scenarios.HotelKeepsHot | utils/filterBannedWords.ts:37 | 'hot' inside "hotel" is left alone, under either rule |
| Scenarios.ShoutedShopee | utils/filterBannedWords.ts:9 | "SHOPEE" becomes 'sàn Cam' |
| Scenarios.TwoKeySchedule | utils/filterBannedWords.ts:141 | two keys of different lengths run longer first, whichever is declared first |
| Scenarios.FlashSaleLongestFirst | utils/filterBannedWords.ts:34-35 | "flash sale" becomes 'giảm giá chớp nhoáng' even though 'sale' is declared first |
| Scenarios.FlashSaleInDeclarationOrder | utils/filterBannedWords.ts:34-35 | passes run in declaration order would give "flash ưu đãi lớn" |
| Scenarios.AcneCascade | utils/filterBannedWords.ts:78-79 | "trị mụn" becomes 'hỗ trợ giảm mụn', and the later 'mụn' pass rewrites that to "hỗ trợ giảm làn da có khuyết điểm" |
| Scenarios.HookRewritten | utils/filterBannedWords.ts:29 | "Mua ngay trên Shopee kẻo hết hàng!" becomes "trải nghiệm ngay trên sàn Cam kẻo hết hàng!", the rest kept verbatim |
| Scenarios.DiscountInSentence | utils/filterBannedWords.ts:32 | as written, "Siêu giảm giá hôm nay" comes back unchanged; under the corrected rule it becomes "Siêu ưu đãi hôm nay" |
| Scenarios.ReplaceOneMatch | utils/filterBannedWords.ts:148 | a text with exactly one match is the text before it, then the replacement, then the text after it |
| Scenarios.NoFirstCharNoChange | utils/filterBannedWords.ts:148 | a text in which no character folds to the key's first character is left alone |

## Left out

- No regular-expression engine is modelled. The pattern `\bkey\b` with flags `gi` is modelled directly as a scan over characters. `RegExpEscape` shows separately that the escaped key stands for the key literally.
- TextMatch.ReplaceAll: does not model `$` patterns in the replacement string, because no replacement in the table contains `$`.
- TextMatch.Fold: weaker than the `i` flag's case folding. It lower-cases ASCII and the Vietnamese capitals (Latin-1, Ă Đ Ĩ Ũ Ơ Ư, and Ạ to Ỹ), and leaves every other character as it is. Full Unicode case mapping is not modelled.
- Strings are sequences of Unicode characters, not UTF-16 code units. This agrees with JavaScript's `length` and `\b` because every key and replacement in the table is in the Basic Multilingual Plane.
- `Object.keys` puts integer-like keys first. The table has none, so the keys are modelled in declaration order.
- `null` and `undefined` are not modelled:
  - text fields are always strings;
  - an absent batch is `None`;
  - an absent optional field is `None`.
- The model's `Script` has only the fields declared in `types.ts`. Extra properties that the object spread would carry along are not modelled.
- The on/off filter toggle (App.tsx:122) is not modelled. `ScriptCard.CopyOfFilteredScript` states the case where the filter is on.
- The following are input/output or presentation, and are not modelled:
  - the JSX rendering of every component;
  - `navigator.clipboard`, `setTimeout` and the copied flag in `ScriptCard`;
  - `localStorage`, `matchMedia`, `Date.now()` ids, history persistence and the asynchronous script generation in `App.tsx`;
  - the external AI call in `services/geminiService.ts`;
  - the file, camera and canvas handling in `components/ImageUploader.tsx`;
  - the link opening in `components/LinkResolver.tsx`.
- FilterBannedWords.DistinctKeys: not proved for `BannedWordMap`. It is a precondition only where a lookup must name the declared replacement. For a table with a repeated key the model and JavaScript differ: the model runs one pass per entry and `Lookup` returns the first declared value, while the object literal keeps the key once with its last value. `BannedWordMap`'s 98 keys are distinct, so the application is not affected.
- The count of 18 affected keys in "## Findings" is read off the table, not proved. The model proves what happens to a key of each shape (`TextMatch.NonWordEdgeNeedsWordNeighbour`, `TextMatch.StandaloneKeyAsWritten`). The worked cases in `Scenarios` run on small tables whose entries `Scenarios.ScenarioTablesFromTheMap` locates in `BannedWordMap`. Their results are shown for those small tables, not for the whole table.

## Findings

| source | as written | input that shows it | evidently intended | confidence | as-written member | corrected member |
|---|---|---|---|---|---|---|
| utils/filterBannedWords.ts:147 | `\b` without the `u` flag only knows ASCII word characters. So a key whose first or last character is a Vietnamese letter or a symbol can match only where an ASCII word character touches that edge. This affects 18 of the 98 keys: 'đặt hàng', 'giảm giá', 'miễn phí', 'giá rẻ', 'tiền tệ', 'đảm bảo 100%', 'hiệu quả 100%', 'chữa trị', 'điều trị', 'yếu sinh lý', 'bác sĩ', 'liên hệ', 'địa chỉ', 'thuốc lá', 'cá độ', 'vũ khí', '18+' and 'ăn cắp'. | "giảm giá" alone, or "Siêu giảm giá hôm nay", comes back unchanged | these keys are replaced wherever no letter or digit touches them: "ưu đãi", and "Siêu ưu đãi hôm nay" | not executed | TextMatch.StandaloneKeyAsWritten | TextMatch.StandaloneKeyCorrected |

All operations take the edge rule as a parameter.

- The as-written rule `JsWordBoundary` is the application's behaviour. The following state that behaviour:
  - `TextMatch.NonWordEdgeNeedsWordNeighbour`, in general;
  - `Scenarios.DiscountInSentence`, for the concrete sentence.
- Under the corrected rule `LetterIsolation`, every general property of the rewriter still holds:
  - the scan lemmas, the schedule, cascading, case-insensitivity, the clean-text identities and `filterScripts`;
  - `TextMatch.StandaloneKeyCorrected` and `Scenarios.DiscountInSentence` show that the missed keys are then replaced.
