/**
 * Worked cases of the filter on small tables drawn from the banned-word table: whole
 * words only, case-insensitive, longest key first, later passes seeing earlier output,
 * and the keys that `\b` can never isolate.
 */
module Scenarios {
  import opened TextMatch
  import opened KeyOrder
  import opened FilterBannedWords

  /** A position whose character does not fold to the key's first character holds no
      occurrence of the key. */
  lemma FirstCharMismatch(rule: EdgeRule, s: string, key: string, j: nat)
    requires |key| > 0 && j <= |s|
    requires j < |s| ==> Fold(s[j]) != Fold(key[0])
    ensures !MatchAt(rule, s, key, j)
  {
    if j + |key| <= |s| {
      SameIgnoringCaseIff(s[j..j + |key|], key);
      assert s[j..j + |key|][0] == s[j];
    }
  }

  /** 'hot' is a whole word only: inside "hotel" it is left alone. */
  lemma HotelKeepsHot()
    ensures ReplaceAll(JsWordBoundary, "hot", "nổi bật", "hotel") == "hotel"
    ensures ReplaceAll(LetterIsolation, "hot", "nổi bật", "hotel") == "hotel"
  {
    var s := "hotel";
    forall rule: EdgeRule, j | 0 <= j <= |s| ensures !MatchAt(rule, s, "hot", j) {
      if j == 0 {
        assert IsWordChar(s[2]) && IsWordChar(s[3]) && IsLetterOrDigit(s[3]);
      } else {
        FirstCharMismatch(rule, s, "hot", j);
      }
    }
    ReplaceAllNoMatch(JsWordBoundary, "hot", "nổi bật", s);
    ReplaceAllNoMatch(LetterIsolation, "hot", "nổi bật", s);
  }

  /** After a match at p with no later match, the scan copies the rest of the text. */
  lemma ResumeCopiesRest(rule: EdgeRule, key: string, repl: string, s: string, p: nat)
    requires |key| > 0 && p + |key| <= |s|
    requires forall j :: p + |key| <= j <= |s| ==> !MatchAt(rule, s, key, j)
    ensures Resume(rule, key, repl, s, p) == s[p + |key|..]
  {
    var hits := Hits(rule, s, key);
    assert forall j :: p + |key| <= j < |s| ==> !hits[j];
    ScanCopies(hits, |key|, repl, s, p + |key|, |s|);
    assert !hits[|s|];
  }

  /** A text with exactly one match, the text w (the key up to case) between pre and
      post. */
  lemma ReplaceOneMatch(rule: EdgeRule, s: string, pre: string, w: string, post: string, key: string, repl: string, r: string)
    requires |key| > 0 && |w| == |key| && s == pre + w + post && r == pre + repl + post
    requires forall j :: 0 <= j < |pre| ==> !MatchAt(rule, s, key, j)
    requires MatchAt(rule, s, key, |pre|)
    requires forall j :: |pre| + |key| <= j <= |s| ==> !MatchAt(rule, s, key, j)
    ensures ReplaceAll(rule, key, repl, s) == r
  {
    ReplaceFromLeftmost(rule, key, repl, s, 0, |pre|);
    ResumeCopiesRest(rule, key, repl, s, |pre|);
    assert s[0..|pre|] == pre && s[|pre| + |key|..] == post;
  }

  /** Matching ignores case: "SHOPEE" is replaced like "shopee". */
  lemma ShoutedShopee()
    ensures ReplaceAll(JsWordBoundary, "shopee", "sàn Cam", "SHOPEE") == "sàn Cam"
  {
    ShoutedShopeeMatches();
    ReplaceOneMatch(JsWordBoundary, "SHOPEE", "", "SHOPEE", "", "shopee", "sàn Cam", "sàn Cam");
  }

  lemma ShoutedShopeeMatches()
    ensures MatchAt(JsWordBoundary, "SHOPEE", "shopee", 0)
    ensures !MatchAt(JsWordBoundary, "SHOPEE", "shopee", 6)
  {
    var s := "SHOPEE";
    SameIgnoringCaseIff(s[0..6], "shopee");
    assert s[0..6] == s;
  }

  /** A key whose k-th character differs (up to case) from the text's does not occur
      there. */
  lemma CharMismatch(rule: EdgeRule, s: string, key: string, j: nat, k: nat)
    requires j + |key| <= |s| && k < |key|
    requires Fold(s[j + k]) != Fold(key[k])
    ensures !MatchAt(rule, s, key, j)
  {
    SameIgnoringCaseIff(s[j..j + |key|], key);
    assert s[j..j + |key|][k] == s[j + k];
  }

  /** A text in which no character folds to the key's first character is left alone. */
  lemma NoFirstCharNoChange(rule: EdgeRule, key: string, repl: string, s: string)
    requires |key| > 0
    requires forall j :: 0 <= j < |s| ==> Fold(s[j]) != Fold(key[0])
    ensures ReplaceAll(rule, key, repl, s) == s
  {
    forall j | 0 <= j <= |s| ensures !MatchAt(rule, s, key, j) {
      FirstCharMismatch(rule, s, key, j);
    }
    ReplaceAllNoMatch(rule, key, repl, s);
  }

  /** Two keys of different lengths sorted longest first. */
  lemma SortedPair(ks: seq<string>, long: string, short: string)
    requires |long| > |short|
    requires SortedByLength(ks) && multiset(ks) == multiset{long, short}
    ensures ks == [long, short]
  {
    assert |ks| == 2;
    assert ks[0] in multiset(ks) && ks[1] in multiset(ks);
    assert |ks[0]| >= |ks[1]|;
    if ks[0] != long {
      assert false;
    }
    if ks[1] != short {
      assert false;
    }
  }

  /** A table of two keys of different lengths is run longer key first, in either
      declaration order. */
  lemma TwoKeySchedule(long: (string, string), short: (string, string), table: TermTable)
    requires |long.0| > |short.0|
    requires table == [long, short] || table == [short, long]
    ensures Schedule(table) == [long, short]
  {
    var sched := Schedule(table);
    var ks := ScheduleKeys(table);
    ScheduleOrder(table);
    ScheduleCoversTable(table);
    KeysOfPair(long, short, table);
    SortedPair(ks, long.0, short.0);
    EntriesByKey(sched, long, short, table);
  }

  lemma KeysOfPair(long: (string, string), short: (string, string), table: TermTable)
    requires table == [long, short] || table == [short, long]
    ensures multiset(Keys(table)) == multiset{long.0, short.0}
  {
    assert Keys(table) == [table[0].0, table[1].0];
  }

  /** Entries of a two-entry table are told apart by their keys. */
  lemma EntriesByKey(sched: seq<(string, string)>, long: (string, string), short: (string, string), table: TermTable)
    requires |long.0| > |short.0|
    requires table == [long, short] || table == [short, long]
    requires |sched| == 2 && sched[0] in table && sched[1] in table
    requires Keys(sched) == [long.0, short.0]
    ensures sched == [long, short]
  {
    assert Keys(sched)[0] == sched[0].0 && Keys(sched)[1] == sched[1].0;
  }

  /** The two sale terms, the shorter one declared first. */
  const SaleTable: TermTable := [("sale", "ưu đãi lớn"), ("flash sale", "giảm giá chớp nhoáng")]

  /** Longest first: "flash sale" becomes its own replacement, not "flash" followed by
      the replacement of "sale". */
  lemma FlashSaleLongestFirst()
    ensures Schedule(SaleTable) == [SaleTable[1], SaleTable[0]]
    ensures FilteredText(JsWordBoundary, SaleTable, "flash sale") == "giảm giá chớp nhoáng"
  {
    TwoKeySchedule(SaleTable[1], SaleTable[0], SaleTable);
    StandaloneKeyAsWritten("flash sale", "giảm giá chớp nhoáng");
    var mid := "giảm giá chớp nhoáng";
    NoFirstCharNoChange(JsWordBoundary, "sale", "ưu đãi lớn", mid);
    assert [SaleTable[1], SaleTable[0]][1..] == [SaleTable[0]];
  }

  /** Run in declaration order instead, the shorter key would split the phrase. */
  lemma FlashSaleInDeclarationOrder()
    ensures ApplyPasses(JsWordBoundary, SaleTable, "flash sale") == "flash ưu đãi lớn"
  {
    SaleInsidePhrase();
    PhraseGoneAfterSplit();
    assert SaleTable[1..][1..] == [];
  }

  /** The pass for 'sale' rewrites the second word of "flash sale". */
  lemma SaleInsidePhrase()
    ensures ReplaceAll(JsWordBoundary, "sale", "ưu đãi lớn", "flash sale") == "flash ưu đãi lớn"
  {
    NoSaleInFlash();
    SaleTexts();
    ReplaceOneMatch(JsWordBoundary, "flash sale", "flash ", "sale", "", "sale", "ưu đãi lớn", "flash ưu đãi lớn");
  }

  lemma SaleTexts()
    ensures "flash sale" == "flash " + "sale" + ""
    ensures "flash ưu đãi lớn" == "flash " + "ưu đãi lớn" + ""
  {
  }

  /** 'sale' matches as the second word and nowhere else. */
  lemma NoSaleInFlash()
    ensures forall j :: 0 <= j < 6 ==> !MatchAt(JsWordBoundary, "flash sale", "sale", j)
    ensures MatchAt(JsWordBoundary, "flash sale", "sale", 6)
    ensures !MatchAt(JsWordBoundary, "flash sale", "sale", 10)
  {
    var s := "flash sale";
    assert s[6..10] == "sale";
    SameIgnoringCaseIff(s[6..10], "sale");
    forall j | 0 <= j < 6 ensures !MatchAt(JsWordBoundary, s, "sale", j) {
      if j == 3 {
        CharMismatch(JsWordBoundary, s, "sale", j, 1);
      } else {
        FirstCharMismatch(JsWordBoundary, s, "sale", j);
      }
    }
  }

  /** After that, 'flash sale' no longer occurs. */
  lemma PhraseGoneAfterSplit()
    ensures ReplaceAll(JsWordBoundary, "flash sale", "giảm giá chớp nhoáng", "flash ưu đãi lớn") == "flash ưu đãi lớn"
  {
    var s := "flash ưu đãi lớn";
    forall j | 0 <= j <= |s| ensures !MatchAt(JsWordBoundary, s, "flash sale", j) {
      if j == 0 {
        CharMismatch(JsWordBoundary, s, "flash sale", 0, 6);
      } else {
        FirstCharMismatch(JsWordBoundary, s, "flash sale", j);
      }
    }
    ReplaceAllNoMatch(JsWordBoundary, "flash sale", "giảm giá chớp nhoáng", s);
  }

  /** Two acne terms: the longer one's replacement contains the shorter key. */
  const AcneTable: TermTable := [("trị mụn", "hỗ trợ giảm mụn"), ("mụn", "làn da có khuyết điểm")]

  /** Cascading: the pass for 'mụn' runs over the output of the pass for 'trị mụn' and
      rewrites the 'mụn' that replacement brought in. */
  lemma AcneCascade()
    ensures FilteredText(JsWordBoundary, AcneTable, "trị mụn") == "hỗ trợ giảm làn da có khuyết điểm"
  {
    TwoKeySchedule(AcneTable[0], AcneTable[1], AcneTable);
    StandaloneKeyAsWritten("trị mụn", "hỗ trợ giảm mụn");
    AcneInReplacement();
    assert AcneTable[1..][1..] == [];
  }

  lemma AcneInReplacement()
    ensures ReplaceAll(JsWordBoundary, "mụn", "làn da có khuyết điểm", "hỗ trợ giảm mụn")
            == "hỗ trợ giảm làn da có khuyết điểm"
  {
    NoAcneInFirstWords();
    AcneAtEnd();
    AcneTexts();
    ReplaceOneMatch(JsWordBoundary, "hỗ trợ giảm mụn", "hỗ trợ giảm ", "mụn", "", "mụn", "làn da có khuyết điểm",
      "hỗ trợ giảm làn da có khuyết điểm");
  }

  lemma AcneTexts()
    ensures "hỗ trợ giảm mụn" == "hỗ trợ giảm " + "mụn" + ""
    ensures "hỗ trợ giảm làn da có khuyết điểm" == "hỗ trợ giảm " + "làn da có khuyết điểm" + ""
  {
  }

  /** The last word is a match. */
  lemma AcneAtEnd()
    ensures MatchAt(JsWordBoundary, "hỗ trợ giảm mụn", "mụn", 12)
  {
    var s := "hỗ trợ giảm mụn";
    assert s[12..15] == "mụn";
    SameIgnoringCaseIff(s[12..15], "mụn");
  }

  /** The 'm' of "giảm" does not start a match. */
  lemma NoAcneInFirstWords()
    ensures forall j :: 0 <= j < 12 ==> !MatchAt(JsWordBoundary, "hỗ trợ giảm mụn", "mụn", j)
  {
    var s := "hỗ trợ giảm mụn";
    forall j | 0 <= j < 12 ensures !MatchAt(JsWordBoundary, s, "mụn", j) {
      if j == 10 {
        CharMismatch(JsWordBoundary, s, "mụn", j, 1);
      } else {
        FirstCharMismatch(JsWordBoundary, s, "mụn", j);
      }
    }
  }

  /** A one-entry table has one pass. */
  lemma OneKeySchedule(entry: (string, string))
    ensures Schedule([entry]) == [entry]
  {
    ScheduleCoversTable([entry]);
  }

  /** The discount term alone. */
  const DiscountTable: TermTable := [("giảm giá", "ưu đãi")]

  /** As written, 'giảm giá' is not replaced in an ordinary sentence, because its last
      letter 'á' and the following space are both non-word characters for `\b`; under the
      corrected rule it is. */
  lemma DiscountInSentence()
    ensures FilteredText(JsWordBoundary, DiscountTable, "Siêu giảm giá hôm nay") == "Siêu giảm giá hôm nay"
    ensures FilteredText(LetterIsolation, DiscountTable, "Siêu giảm giá hôm nay") == "Siêu ưu đãi hôm nay"
  {
    OneKeySchedule(DiscountTable[0]);
    DiscountMissedAsWritten();
    DiscountFoundCorrected();
  }

  lemma DiscountMissedAsWritten()
    ensures ReplaceAll(JsWordBoundary, "giảm giá", "ưu đãi", "Siêu giảm giá hôm nay") == "Siêu giảm giá hôm nay"
  {
    var s := "Siêu giảm giá hôm nay";
    forall j | 0 <= j <= |s| ensures !MatchAt(JsWordBoundary, s, "giảm giá", j) {
      if j == 5 {
        assert !IsWordChar(s[12]) && !IsWordChar(s[13]);
      } else if j == 10 {
        CharMismatch(JsWordBoundary, s, "giảm giá", j, 2);
      } else {
        FirstCharMismatch(JsWordBoundary, s, "giảm giá", j);
      }
    }
    ReplaceAllNoMatch(JsWordBoundary, "giảm giá", "ưu đãi", s);
  }

  lemma DiscountFoundCorrected()
    ensures ReplaceAll(LetterIsolation, "giảm giá", "ưu đãi", "Siêu giảm giá hôm nay") == "Siêu ưu đãi hôm nay"
  {
    DiscountAtFive();
    NoDiscountAfterIt();
    DiscountTexts();
    ReplaceOneMatch(LetterIsolation, "Siêu giảm giá hôm nay", "Siêu ", "giảm giá", " hôm nay", "giảm giá", "ưu đãi",
      "Siêu ưu đãi hôm nay");
  }

  lemma DiscountTexts()
    ensures "Siêu giảm giá hôm nay" == "Siêu " + "giảm giá" + " hôm nay"
    ensures "Siêu ưu đãi hôm nay" == "Siêu " + "ưu đãi" + " hôm nay"
  {
  }

  /** Under the corrected rule the key matches at position 5 and nowhere before. */
  lemma DiscountAtFive()
    ensures forall j :: 0 <= j < 5 ==> !MatchAt(LetterIsolation, "Siêu giảm giá hôm nay", "giảm giá", j)
    ensures MatchAt(LetterIsolation, "Siêu giảm giá hôm nay", "giảm giá", 5)
  {
    var s := "Siêu giảm giá hôm nay";
    NoDiscountBeforeIt();
    assert s[5..13] == "giảm giá";
    SameIgnoringCaseIff(s[5..13], "giảm giá");
  }

  lemma NoDiscountBeforeIt()
    ensures forall j :: 0 <= j < 5 ==> !MatchAt(LetterIsolation, "Siêu giảm giá hôm nay", "giảm giá", j)
  {
    var s := "Siêu giảm giá hôm nay";
    forall j | 0 <= j < 5 ensures !MatchAt(LetterIsolation, s, "giảm giá", j) {
      FirstCharMismatch(LetterIsolation, s, "giảm giá", j);
    }
  }

  /** Nothing after the first occurrence starts another. */
  lemma NoDiscountAfterIt()
    ensures forall j :: 13 <= j <= 21 ==> !MatchAt(LetterIsolation, "Siêu giảm giá hôm nay", "giảm giá", j)
  {
    var s := "Siêu giảm giá hôm nay";
    forall j | 13 <= j <= |s| ensures !MatchAt(LetterIsolation, s, "giảm giá", j) {
      FirstCharMismatch(LetterIsolation, s, "giảm giá", j);
    }
  }

  /** A platform name and a sales-pressure phrase. */
  const HookTable: TermTable := [("shopee", "sàn Cam"), ("mua ngay", "trải nghiệm ngay")]

  /** Both terms of a typical hook are rewritten; the rest of the sentence is kept
      verbatim. */
  lemma HookRewritten()
    ensures FilteredText(JsWordBoundary, HookTable, "Mua ngay trên Shopee kẻo hết hàng!")
            == "trải nghiệm ngay trên sàn Cam kẻo hết hàng!"
  {
    TwoKeySchedule(HookTable[1], HookTable[0], HookTable);
    BuyNowPass();
    ShopeePass();
    assert [HookTable[1], HookTable[0]][1..] == [HookTable[0]];
  }

  lemma BuyNowPass()
    ensures ReplaceAll(JsWordBoundary, "mua ngay", "trải nghiệm ngay", "Mua ngay trên Shopee kẻo hết hàng!")
            == "trải nghiệm ngay trên Shopee kẻo hết hàng!"
  {
    BuyNowMatches();
    BuyNowTexts();
    BuyNowRewrittenText();
    ReplaceOneMatch(JsWordBoundary, "Mua ngay trên Shopee kẻo hết hàng!", "", "Mua ngay",
      " trên Shopee kẻo hết hàng!", "mua ngay", "trải nghiệm ngay", "trải nghiệm ngay trên Shopee kẻo hết hàng!");
  }

  lemma ShopeePass()
    ensures ReplaceAll(JsWordBoundary, "shopee", "sàn Cam", "trải nghiệm ngay trên Shopee kẻo hết hàng!")
            == "trải nghiệm ngay trên sàn Cam kẻo hết hàng!"
  {
    ShopeeMatches();
    ShopeeTexts();
    RewrittenHookText();
    ReplaceOneMatch(JsWordBoundary, "trải nghiệm ngay trên Shopee kẻo hết hàng!", "trải nghiệm ngay trên ",
      "Shopee", " kẻo hết hàng!", "shopee", "sàn Cam", "trải nghiệm ngay trên sàn Cam kẻo hết hàng!");
  }

  lemma BuyNowTexts()
    ensures "Mua ngay trên Shopee kẻo hết hàng!" == "" + "Mua ngay" + " trên Shopee kẻo hết hàng!"
  {
  }

  lemma BuyNowRewrittenText()
    ensures "trải nghiệm ngay trên Shopee kẻo hết hàng!" == "" + "trải nghiệm ngay" + " trên Shopee kẻo hết hàng!"
  {
  }

  lemma ShopeeTexts()
    ensures "trải nghiệm ngay trên Shopee kẻo hết hàng!" == "trải nghiệm ngay trên " + "Shopee" + " kẻo hết hàng!"
  {
  }

  lemma RewrittenHookText()
    ensures "trải nghiệm ngay trên sàn Cam kẻo hết hàng!" == "trải nghiệm ngay trên " + "sàn Cam" + " kẻo hết hàng!"
  {
  }

  /** 'mua ngay' matches at the start, whatever its case, and nowhere else. */
  lemma BuyNowMatches()
    ensures MatchAt(JsWordBoundary, "Mua ngay trên Shopee kẻo hết hàng!", "mua ngay", 0)
    ensures forall j :: 8 <= j <= 34 ==> !MatchAt(JsWordBoundary, "Mua ngay trên Shopee kẻo hết hàng!", "mua ngay", j)
  {
    var s := "Mua ngay trên Shopee kẻo hết hàng!";
    SameIgnoringCaseIff(s[0..8], "mua ngay");
    assert s[0..8] == "Mua ngay";
    forall j | 8 <= j <= |s| ensures !MatchAt(JsWordBoundary, s, "mua ngay", j) {
      FirstCharMismatch(JsWordBoundary, s, "mua ngay", j);
    }
  }

  /** 'shopee' matches the capitalised name after four words, and nowhere else. */
  lemma ShopeeMatches()
    ensures MatchAt(JsWordBoundary, "trải nghiệm ngay trên Shopee kẻo hết hàng!", "shopee", 22)
    ensures forall j :: 0 <= j < 22 ==> !MatchAt(JsWordBoundary, "trải nghiệm ngay trên Shopee kẻo hết hàng!", "shopee", j)
    ensures forall j :: 28 <= j <= 42 ==> !MatchAt(JsWordBoundary, "trải nghiệm ngay trên Shopee kẻo hết hàng!", "shopee", j)
  {
    var s := "trải nghiệm ngay trên Shopee kẻo hết hàng!";
    ShopeeWord(s);
    SameIgnoringCaseIff(s[22..28], "shopee");
    NoShopeeBefore();
    NoShopeeAfter();
  }

  /** Where the name sits in the hook, between two spaces. */
  lemma ShopeeWord(s: string)
    requires s == "trải nghiệm ngay trên Shopee kẻo hết hàng!"
    ensures |s| == 42 && s[22..28] == "Shopee"
    ensures s[21] == ' ' && s[22] == 'S' && s[27] == 'e' && s[28] == ' '
  {
  }

  lemma NoShopeeBefore()
    ensures forall j :: 0 <= j < 22 ==> !MatchAt(JsWordBoundary, "trải nghiệm ngay trên Shopee kẻo hết hàng!", "shopee", j)
  {
    var s := "trải nghiệm ngay trên Shopee kẻo hết hàng!";
    forall j | 0 <= j < 22 ensures !MatchAt(JsWordBoundary, s, "shopee", j) {
      FirstCharMismatch(JsWordBoundary, s, "shopee", j);
    }
  }

  lemma NoShopeeAfter()
    ensures forall j :: 28 <= j <= 42 ==> !MatchAt(JsWordBoundary, "trải nghiệm ngay trên Shopee kẻo hết hàng!", "shopee", j)
  {
    var s := "trải nghiệm ngay trên Shopee kẻo hết hàng!";
    forall j | 28 <= j <= |s| ensures !MatchAt(JsWordBoundary, s, "shopee", j) {
      FirstCharMismatch(JsWordBoundary, s, "shopee", j);
    }
  }

  /** Every table of these cases is drawn from the application's own table. */
  lemma ScenarioTablesFromTheMap()
    ensures BannedWordMap[0] == ("shopee", "sàn Cam")
    ensures BannedWordMap[26] == ("hot", "nổi bật")
    ensures SaleTable == BannedWordMap[23..25]
    ensures AcneTable == BannedWordMap[61..63]
    ensures DiscountTable == [BannedWordMap[21]]
    ensures HookTable == [BannedWordMap[0], BannedWordMap[18]]
  {
    MapSections();
    assert BannedWordMap[0] == PlatformTerms[0];
    SalesEntries();
    assert AcneTable == BeautyTerms[2..4];
    assert BannedWordMap[61..63] == BannedWordMap[59..74][2..4];
  }

  lemma SalesEntries()
    ensures BannedWordMap[18] == ("mua ngay", "trải nghiệm ngay")
    ensures BannedWordMap[21] == ("giảm giá", "ưu đãi")
    ensures BannedWordMap[23..25] == SaleTable
    ensures BannedWordMap[26] == ("hot", "nổi bật")
  {
    MapSections();
    var sales := BannedWordMap[16..37];
    assert sales == SalesTerms;
    assert sales[2] == BannedWordMap[18] && sales[5] == BannedWordMap[21] && sales[10] == BannedWordMap[26];
    assert BannedWordMap[23..25] == sales[7..9];
  }
}
