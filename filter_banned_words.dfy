/**
 * utils/filterBannedWords.ts: the term table, filterText and filterScripts.
 *
 * Every operation takes the table as a parameter (a sequence of key/replacement pairs in
 * declaration order, standing for the object literal) and the edge rule of the matcher;
 * the application's own configuration is `BannedWordMap` with `JsWordBoundary`.
 */
module FilterBannedWords {
  import opened Wrappers
  import opened TextMatch
  import opened KeyOrder
  import opened Types

  type TermTable = seq<(string, string)>

  /** BANNED_WORD_MAP, entry by entry, in declaration order: its seven sections one after
      another. */
  const BannedWordMap: TermTable :=
    PlatformTerms + SalesTerms + CommitmentTerms + HealthTerms + BeautyTerms + ContactTerms + SensitiveTerms

  /** Platforms and social media. */
  const PlatformTerms: TermTable := [
    ("shopee", "sàn Cam"),
    ("lazada", "sàn Xanh"),
    ("tiki", "sàn T"),
    ("facebook", "nền tảng FB"),
    ("instagram", "nền tảng IG"),
    ("youtube", "nền tảng YT"),
    ("tiktok", "nền tảng này"),
    ("link in bio", "thông tin ở bio"),
    ("link", "liên kết"),
    ("click", "nhấn vào"),
    ("comment", "để lại ý kiến"),
    ("share", "chia sẻ"),
    ("like", "thả tim"),
    ("follow", "theo dõi"),
    ("dm", "nhắn tin"),
    ("inbox", "nhắn tin cho mình")
  ]

  /** Sales and pricing. */
  const SalesTerms: TermTable := [
    ("mua bán", "trao đổi"),
    ("bán hàng", "chia sẻ"),
    ("mua ngay", "trải nghiệm ngay"),
    ("đặt hàng", "đăng ký"),
    ("thanh toán", "hoàn tất"),
    ("giảm giá", "ưu đãi"),
    ("khuyến mãi", "chương trình đặc biệt"),
    ("sale", "ưu đãi lớn"),
    ("flash sale", "giảm giá chớp nhoáng"),
    ("deal", "cơ hội tốt"),
    ("hot", "nổi bật"),
    ("trend", "xu hướng"),
    ("viral", "lan truyền"),
    ("miễn phí", "0 đồng"),
    ("free ship", "hỗ trợ phí vận chuyển"),
    ("rẻ nhất", "giá cực tốt"),
    ("giá rẻ", "giá ưu đãi"),
    ("giá sốc", "giá bất ngờ"),
    ("rẻ sập sàn", "giá cực tốt"),
    ("tiền", "ngân lượng"),
    ("tiền tệ", "tài chính")
  ]

  /** Commitments and absolutes. */
  const CommitmentTerms: TermTable := [
    ("cam kết", "tự tin"),
    ("đảm bảo 100%", "hỗ trợ tối đa"),
    ("chắc chắn", "tin rằng"),
    ("tuyệt đối", "vô cùng hiệu quả"),
    ("hiệu quả 100%", "hiệu quả rõ rệt"),
    ("duy nhất", "đặc biệt"),
    ("hàng đầu", "nổi bật"),
    ("top 1", "được ưa chuộng"),
    ("số một", "được yêu thích"),
    ("thần thánh", "cực kỳ hiệu quả"),
    ("thần dược", "sản phẩm hỗ trợ tốt")
  ]

  /** Health and medicine. */
  const HealthTerms: TermTable := [
    ("khỏi bệnh", "cải thiện"),
    ("chữa trị", "hỗ trợ"),
    ("điều trị", "hỗ trợ"),
    ("bệnh", "vấn đề sức khỏe"),
    ("yếu sinh lý", "hỗ trợ phái mạnh"),
    ("tăng cân", "cải thiện cân nặng"),
    ("giảm cân", "quản lý vóc dáng"),
    ("thuốc", "sản phẩm"),
    ("bác sĩ", "chuyên gia"),
    ("phòng khám", "trung tâm chăm sóc"),
    ("bệnh viện", "cơ sở y tế")
  ]

  /** Beauty and cosmetics. */
  const BeautyTerms: TermTable := [
    ("eo thon", "vóc dáng cân đối"),
    ("dáng đẹp", "dáng xinh"),
    ("trị mụn", "hỗ trợ giảm mụn"),
    ("mụn", "làn da có khuyết điểm"),
    ("trị nám", "hỗ trợ làm mờ nám"),
    ("nám", "da không đều màu"),
    ("sẹo", "vết thâm"),
    ("mờ sẹo", "cải thiện vết thâm"),
    ("trắng da", "làm sáng da"),
    ("trắng bật tone", "da sáng mịn màng"),
    ("chống lão hóa", "hỗ trợ làn da trẻ trung"),
    ("xóa nhăn", "làm mờ nếp nhăn"),
    ("thẩm mỹ viện", "trung tâm làm đẹp"),
    ("dao kéo", "can thiệp thẩm mỹ"),
    ("phẫu thuật", "can thiệp thẩm mỹ")
  ]

  /** Contact information. */
  const ContactTerms: TermTable := [
    ("liên hệ", "thông tin ở bio"),
    ("địa chỉ", "thông tin ở bio"),
    ("số điện thoại", "thông tin ở bio"),
    ("sđt", "thông tin ở bio"),
    ("zalo", "app ZL"),
    ("email", "thư điện tử")
  ]

  /** Sensitive and banned content. */
  const SensitiveTerms: TermTable := [
    ("thuốc lá", "sản phẩm có hại"),
    ("rượu", "đồ uống có cồn"),
    ("bia", "đồ uống có cồn"),
    ("chất kích thích", "chất gây nghiện"),
    ("ma túy", "chất cấm"),
    ("cờ bạc", "trò chơi may rủi"),
    ("cá độ", "đặt cược"),
    ("vay tiền", "hỗ trợ tài chính"),
    ("tín dụng đen", "vay nặng lãi"),
    ("vũ khí", "vật nguy hiểm"),
    ("bạo lực", "hành động mạnh"),
    ("giết người", "hành vi nguy hiểm"),
    ("khiêu dâm", "nội dung nhạy cảm"),
    ("18+", "nội dung người lớn"),
    ("sexy", "quyến rũ"),
    ("lừa đảo", "hành vi không trung thực"),
    ("ăn cắp", "lấy đồ"),
    ("hack", "xâm nhập")
  ]

  /** Where each section sits in the table: 98 entries in all. */
  lemma MapSections()
    ensures |BannedWordMap| == 98
    ensures BannedWordMap[..16] == PlatformTerms
    ensures BannedWordMap[16..37] == SalesTerms
    ensures BannedWordMap[37..48] == CommitmentTerms
    ensures BannedWordMap[48..59] == HealthTerms
    ensures BannedWordMap[59..74] == BeautyTerms
    ensures BannedWordMap[74..80] == ContactTerms
    ensures BannedWordMap[80..] == SensitiveTerms
  {
    var a := PlatformTerms + SalesTerms;
    var b := a + CommitmentTerms;
    var c := b + HealthTerms;
    var d := c + BeautyTerms;
    var e := d + ContactTerms;
    assert BannedWordMap == e + SensitiveTerms;
    assert a[..16] == PlatformTerms && a[16..] == SalesTerms;
    assert b[..37] == a && b[37..] == CommitmentTerms;
    assert c[..48] == b && c[48..] == HealthTerms;
    assert d[..59] == c && d[59..] == BeautyTerms;
    assert e[..74] == d && e[74..] == ContactTerms;
    assert BannedWordMap[..80] == e && BannedWordMap[80..] == SensitiveTerms;
  }

  /** Object.keys of the table: its keys in declaration order. */
  function Keys(table: TermTable): seq<string> {
    seq(|table|, i requires 0 <= i < |table| => table[i].0)
  }

  /** An object literal cannot hold the same key twice. */
  predicate DistinctKeys(table: TermTable) {
    forall i, j :: 0 <= i < j < |table| ==> table[i].0 != table[j].0
  }

  /** `BANNED_WORD_MAP[key]` for a key of the table. */
  function Lookup(table: TermTable, key: string): string
    requires key in Keys(table)
  {
    if table[0].0 == key then table[0].1
    else
      assert Keys(table) == [table[0].0] + Keys(table[1..]);
      Lookup(table[1..], key)
  }

  /** With distinct keys, looking a key up gives the value declared with it. */
  lemma {:induction false} LookupFinds(table: TermTable, i: nat)
    requires DistinctKeys(table) && i < |table|
    ensures table[i].0 in Keys(table)
    ensures Lookup(table, table[i].0) == table[i].1
  {
    assert Keys(table)[i] == table[i].0;
    if i > 0 {
      assert table[1..][i - 1] == table[i];
      LookupFinds(table[1..], i - 1);
    }
  }

  lemma LookupIsDeclared(table: TermTable, key: string)
    requires key in Keys(table)
    ensures (key, Lookup(table, key)) in table
  {
    if table[0].0 != key {
      assert Keys(table) == [table[0].0] + Keys(table[1..]);
      LookupIsDeclared(table[1..], key);
    }
  }

  /** The passes filterText runs, in order: each key in sorted order with its replacement. */
  function Schedule(table: TermTable): seq<(string, string)> {
    var sorted := SortByLength(Keys(table));
    assert forall i :: 0 <= i < |sorted| ==> sorted[i] in multiset(Keys(table));
    seq(|sorted|, i requires 0 <= i < |sorted| => (sorted[i], Lookup(table, sorted[i])))
  }

  /** The keys the schedule visits, in order. */
  function ScheduleKeys(table: TermTable): seq<string> {
    Keys(Schedule(table))
  }

  /** Longest-first: the passes visit the keys by non-increasing length, keys of equal
      length in declaration order, and every key of the table exactly as often as it is
      declared. */
  lemma ScheduleOrder(table: TermTable)
    ensures SortedByLength(ScheduleKeys(table))
    ensures multiset(ScheduleKeys(table)) == multiset(Keys(table))
    ensures forall n: nat :: WithLength(ScheduleKeys(table), n) == WithLength(Keys(table), n)
  {
    assert ScheduleKeys(table) == SortByLength(Keys(table));
  }

  /** In particular a longer key's pass always runs before a shorter key's pass. */
  lemma LongerKeyRunsFirst(table: TermTable, i: nat, j: nat)
    requires i < |Schedule(table)| && j < |Schedule(table)|
    requires |Schedule(table)[i].0| > |Schedule(table)[j].0|
    ensures i < j
  {
    ScheduleOrder(table);
    assert ScheduleKeys(table)[i] == Schedule(table)[i].0;
    assert ScheduleKeys(table)[j] == Schedule(table)[j].0;
  }

  /** Every pass replaces a key by the value the table declares for it, and with distinct
      keys every entry of the table gets its pass. */
  lemma ScheduleCoversTable(table: TermTable)
    ensures |Schedule(table)| == |table|
    ensures forall i :: 0 <= i < |Schedule(table)| ==> Schedule(table)[i] in table
    ensures DistinctKeys(table) ==> forall e :: e in table ==> e in Schedule(table)
  {
    var sched := Schedule(table);
    ScheduleOrder(table);
    assert |ScheduleKeys(table)| == |Keys(table)|;
    forall i | 0 <= i < |sched| ensures sched[i] in table {
      assert sched[i].0 == ScheduleKeys(table)[i];
      assert sched[i].0 in multiset(Keys(table));
      LookupIsDeclared(table, sched[i].0);
    }
    if DistinctKeys(table) {
      forall e | e in table ensures e in sched {
        var m :| 0 <= m < |table| && table[m] == e;
        LookupFinds(table, m);
        assert e.0 in multiset(ScheduleKeys(table));
        var i :| 0 <= i < |sched| && ScheduleKeys(table)[i] == e.0;
        assert sched[i] == e;
      }
    }
  }

  /** Run the passes one after the other, each over the output of the ones before. */
  function ApplyPasses(rule: EdgeRule, passes: seq<(string, string)>, text: string): string
    decreases |passes|
  {
    if passes == [] then text
    else ApplyPasses(rule, passes[1..], ReplaceAll(rule, passes[0].0, passes[0].1, text))
  }

  /** Cascading: a later pass sees exactly what the earlier passes produced. */
  lemma {:induction false} ApplyPassesAppend(rule: EdgeRule, p: seq<(string, string)>, q: seq<(string, string)>, text: string)
    ensures ApplyPasses(rule, p + q, text) == ApplyPasses(rule, q, ApplyPasses(rule, p, text))
    decreases |p|
  {
    if p == [] {
      assert p + q == q;
    } else {
      assert (p + q)[1..] == p[1..] + q;
      ApplyPassesAppend(rule, p[1..], q, ReplaceAll(rule, p[0].0, p[0].1, text));
    }
  }

  /** One more pass on top of the first i. */
  lemma ApplyPassesStep(rule: EdgeRule, passes: seq<(string, string)>, i: nat, text: string)
    requires i < |passes|
    ensures ApplyPasses(rule, passes[..i + 1], text) ==
              ReplaceAll(rule, passes[i].0, passes[i].1, ApplyPasses(rule, passes[..i], text))
  {
    assert passes[..i + 1] == passes[..i] + [passes[i]];
    ApplyPassesAppend(rule, passes[..i], [passes[i]], text);
    assert [passes[i]][1..] == [];
  }

  /** Text in which no key matches anywhere goes through every pass unchanged. */
  lemma {:induction false} ApplyPassesClean(rule: EdgeRule, passes: seq<(string, string)>, text: string)
    requires forall i, j :: 0 <= i < |passes| && 0 <= j <= |text| ==> !MatchAt(rule, text, passes[i].0, j)
    ensures ApplyPasses(rule, passes, text) == text
    decreases |passes|
  {
    if passes != [] {
      ReplaceAllNoMatch(rule, passes[0].0, passes[0].1, text);
      ApplyPassesClean(rule, passes[1..], text);
    }
  }

  /** What filterText returns. */
  function FilteredText(rule: EdgeRule, table: TermTable, text: string): string {
    ApplyPasses(rule, Schedule(table), text)
  }

  /** The empty text comes back as it is. */
  lemma FilteredTextOfEmpty(rule: EdgeRule, table: TermTable)
    ensures FilteredText(rule, table, "") == ""
  {
    forall pass | pass in Schedule(table) ensures forall j :: 0 <= j <= 0 ==> !MatchAt(rule, "", pass.0, j) {
      EmptyTextNoMatch(rule, pass.0, pass.1);
    }
    ApplyPassesClean(rule, Schedule(table), "");
  }

  /** Text in which no key of the table matches comes back as it is. */
  lemma FilteredTextOfClean(rule: EdgeRule, table: TermTable, text: string)
    requires forall k, j :: k in Keys(table) && 0 <= j <= |text| ==> !MatchAt(rule, text, k, j)
    ensures FilteredText(rule, table, text) == text
  {
    var sched := Schedule(table);
    ScheduleOrder(table);
    forall i | 0 <= i < |sched| ensures sched[i].0 in Keys(table) {
      assert sched[i].0 == ScheduleKeys(table)[i];
      assert sched[i].0 in multiset(ScheduleKeys(table));
    }
    ApplyPassesClean(rule, sched, text);
  }

  /** filterText: sort the keys longest first, then rewrite the running text once per key. */
  method FilterText(rule: EdgeRule, table: TermTable, text: string) returns (filteredText: string)
    ensures filteredText == FilteredText(rule, table, text)
  {
    if text == "" {
      FilteredTextOfEmpty(rule, table);
      return text;
    }
    filteredText := text;
    var sortedKeys := SortByLength(Keys(table));
    ghost var passes := Schedule(table);
    assert |passes| == |sortedKeys|;
    for i := 0 to |sortedKeys|
      invariant filteredText == ApplyPasses(rule, passes[..i], text)
    {
      var bannedWord := sortedKeys[i];
      assert bannedWord in multiset(Keys(table));
      var replacement := Lookup(table, bannedWord);
      assert passes[i] == (bannedWord, replacement);
      ApplyPassesStep(rule, passes, i, text);
      filteredText := ReplaceAll(rule, bannedWord, replacement, filteredText);
    }
    assert passes[..|sortedKeys|] == passes;
  }

  function FilterScene(rule: EdgeRule, table: TermTable, scene: ScriptScene): ScriptScene {
    scene.(visual := FilteredText(rule, table, scene.visual),
           voiceover := FilteredText(rule, table, scene.voiceover))
  }

  function FilterScript(rule: EdgeRule, table: TermTable, script: Script): Script {
    script.(
      title := FilteredText(rule, table, script.title),
      hook := FilteredText(rule, table, script.hook),
      cta := FilteredText(rule, table, script.cta),
      postContent :=
        if script.postContent.Some? && script.postContent.value != ""
        then Some(FilteredText(rule, table, script.postContent.value))
        else script.postContent,
      scenes := seq(|script.scenes|, i requires 0 <= i < |script.scenes| =>
                      FilterScene(rule, table, script.scenes[i])))
  }

  /** filterScripts: a null or undefined batch gives the empty batch; otherwise a new
      batch of the same length and order, script by script. */
  function FilterScripts(rule: EdgeRule, table: TermTable, scripts: Option<seq<Script>>): (r: seq<Script>)
    ensures scripts.None? ==> r == []
    ensures scripts.Some? ==> |r| == |scripts.value|
  {
    match scripts
    case None => []
    case Some(batch) =>
      seq(|batch|, i requires 0 <= i < |batch| => FilterScript(rule, table, batch[i]))
  }

  /** No key of the table matches anywhere in the text. */
  predicate CleanText(rule: EdgeRule, table: TermTable, text: string) {
    forall k, j :: k in Keys(table) && 0 <= j <= |text| ==> !MatchAt(rule, text, k, j)
  }

  predicate CleanScene(rule: EdgeRule, table: TermTable, scene: ScriptScene) {
    CleanText(rule, table, scene.visual) && CleanText(rule, table, scene.voiceover)
  }

  /** Every text field of the script is clean. */
  predicate CleanScript(rule: EdgeRule, table: TermTable, script: Script) {
    && CleanText(rule, table, script.title)
    && CleanText(rule, table, script.hook)
    && CleanText(rule, table, script.cta)
    && (script.postContent.Some? ==> CleanText(rule, table, script.postContent.value))
    && forall i :: 0 <= i < |script.scenes| ==> CleanScene(rule, table, script.scenes[i])
  }

  /** The shape of each filtered script: the same scenes in the same order, every text
      field rewritten by filterText, `postContent` only when it is a non-empty string, and
      `id`, `hashtags` and `saved` untouched. */
  lemma FilterScriptsFields(rule: EdgeRule, table: TermTable, batch: seq<Script>, i: nat)
    requires i < |batch|
    ensures var r := FilterScripts(rule, table, Some(batch))[i];
      && r.id == batch[i].id && r.hashtags == batch[i].hashtags && r.saved == batch[i].saved
      && r.title == FilteredText(rule, table, batch[i].title)
      && r.hook == FilteredText(rule, table, batch[i].hook)
      && r.cta == FilteredText(rule, table, batch[i].cta)
      && |r.scenes| == |batch[i].scenes|
      && (forall k :: 0 <= k < |r.scenes| ==>
            && r.scenes[k].visual == FilteredText(rule, table, batch[i].scenes[k].visual)
            && r.scenes[k].voiceover == FilteredText(rule, table, batch[i].scenes[k].voiceover))
      && r.postContent == (match batch[i].postContent
                           case None => None
                           case Some(p) => Some(if p == "" then p else FilteredText(rule, table, p)))
  {
  }

  /** The truthiness test on `postContent` changes nothing: filtering an empty post would
      give it back as it is anyway. */
  lemma PostContentGuardIsHarmless(rule: EdgeRule, table: TermTable, script: Script)
    ensures FilterScript(rule, table, script).postContent ==
              match script.postContent
              case None => None
              case Some(p) => Some(FilteredText(rule, table, p))
  {
    FilteredTextOfEmpty(rule, table);
  }

  /** A script with nothing to rewrite comes out identical. */
  lemma FilterScriptOfClean(rule: EdgeRule, table: TermTable, script: Script)
    requires CleanScript(rule, table, script)
    ensures FilterScript(rule, table, script) == script
  {
    FilteredTextOfClean(rule, table, script.title);
    FilteredTextOfClean(rule, table, script.hook);
    FilteredTextOfClean(rule, table, script.cta);
    if script.postContent.Some? {
      FilteredTextOfClean(rule, table, script.postContent.value);
    }
    var scenes := FilterScript(rule, table, script).scenes;
    forall i | 0 <= i < |script.scenes| ensures scenes[i] == script.scenes[i] {
      assert CleanScene(rule, table, script.scenes[i]);
      FilteredTextOfClean(rule, table, script.scenes[i].visual);
      FilteredTextOfClean(rule, table, script.scenes[i].voiceover);
    }
    assert scenes == script.scenes;
  }

  /** Filtering works script by script: every script of the batch with nothing to rewrite
      comes out identical, whatever the other scripts hold. */
  lemma FilterScriptsKeepsCleanScripts(rule: EdgeRule, table: TermTable, batch: seq<Script>)
    ensures forall i :: 0 <= i < |batch| && CleanScript(rule, table, batch[i]) ==>
              FilterScripts(rule, table, Some(batch))[i] == batch[i]
  {
    forall i | 0 <= i < |batch| && CleanScript(rule, table, batch[i])
      ensures FilterScripts(rule, table, Some(batch))[i] == batch[i]
    {
      FilterScriptOfClean(rule, table, batch[i]);
    }
  }

  /** A batch with nothing to rewrite comes back identical, so filtering output that
      holds no further key changes nothing. */
  lemma FilterScriptsOfClean(rule: EdgeRule, table: TermTable, batch: seq<Script>)
    requires forall i :: 0 <= i < |batch| ==> CleanScript(rule, table, batch[i])
    ensures FilterScripts(rule, table, Some(batch)) == batch
  {
    FilterScriptsKeepsCleanScripts(rule, table, batch);
  }
}
