/** The click handler embedded in the generated page: given the clicked
    region's `data-code` (already parsed as a decimal integer, `None` when it
    is not a number) and the text of its `<title>` element (`None` when it has
    none), choose the record the information panel shows. */
module Guide {
  import opened Wrappers
  import opened Text

  /** What the information panel shows for one prefecture. */
  datatype Record = Record(
    name: string, en: string, spot: string, food: string, hidden: string, desc: string)

  /** The prefectures with their own entry, keyed by prefecture code. */
  const GuideData: map<int, Record> := map[
    1 := Record(
      name := "北海道", en := "Hokkaido",
      spot := "四季彩の丘",
      food := "ジンギスカン・海鮮丼",
      hidden := "神の子池（清里町）",
      desc := "雄大な自然と美食の宝庫、北海道へようこそ。広大な大地で深呼吸し、四季折々の絶景をお楽しみください。"),
    13 := Record(
      name := "東京都", en := "Tokyo",
      spot := "浅草寺・スカイツリー",
      food := "江戸前寿司・もんじゃ焼き",
      hidden := "等々力渓谷（世田谷区）",
      desc := "伝統と最先端が融合する大都市、東京。路地裏の情緒から摩天楼の輝きまで、刺激的な発見があなたを待っています。"),
    26 := Record(
      name := "京都府", en := "Kyoto",
      spot := "清水寺・金閣寺",
      food := "京懐石・湯豆腐",
      hidden := "貴船神社（夜の灯篭）",
      desc := "千年の都、京都。歴史ある寺社仏閣の静寂と、四季の雅な移ろいに浸る、心安らぐ旅はいかがでしょうか。"),
    27 := Record(
      name := "大阪府", en := "Osaka",
      spot := "道頓堀・USJ",
      food := "たこ焼き・お好み焼き",
      hidden := "箕面大滝",
      desc := "食い倒れの街、大阪。活気あふれる街並みと人情味、そして絶品グルメが、あなたの旅をエネルギッシュに彩ります。"),
    47 := Record(
      name := "沖縄県", en := "Okinawa",
      spot := "美ら海水族館",
      food := "沖縄そば・ゴーヤチャンプルー",
      hidden := "果報バンタ（うるま市）",
      desc := "青い海と空、南国の楽園沖縄。ゆったりと流れる島時間の中で、心も体もリフレッシュする極上のひとときを。")
  ]

  /** Fallback fields for a prefecture without an entry; its name and English
      name are taken from the region's title instead. */
  const DefaultSpot := "情報準備中..."
  const DefaultFood := "情報準備中..."
  const DefaultHidden := ""
  const DefaultDesc := "現在、この都道府県の特別な観光プランを計画中です。詳細の公開まで今しばらくお待ちください。"

  /** The name shown when the region has no title. */
  const UnnamedRegion := "都道府県"

  datatype Names = Names(name: string, en: string)

  /** Reads the display name and English name from a title of the form
      `name/english`: the name is the trimmed text before the first `/`, the
      English name the trimmed text between the first and second `/`, kept
      only when that text is not empty. */
  function TitleNames(title: Option<string>): (n: Names)
    ensures title.None? ==> n == Names(UnnamedRegion, "")
    ensures title.Some? ==> n.name == Trim(JsWhitespace, PrefixBefore(title.value, '/'))
    ensures title.Some? && '/' !in title.value ==> n.en == ""
    ensures title.Some? && '/' in title.value ==>
      var second := PrefixBefore(title.value[|PrefixBefore(title.value, '/')| + 1..], '/');
      n.en == if second == [] then "" else Trim(JsWhitespace, second)
  {
    match title
    case None => Names(UnnamedRegion, "")
    case Some(t) =>
      var parts := Split(t, '/');
      SplitLeadingParts(t, '/');
      Names(Trim(JsWhitespace, parts[0]),
            if |parts| > 1 && parts[1] != [] then Trim(JsWhitespace, parts[1]) else "")
  }

  /** The record the panel shows: the stored entry for a known code, else the
      fallback fields merged with the names read from the title. */
  function Lookup(code: Option<int>, title: Option<string>): (r: Record)
    ensures code.Some? && code.value in GuideData ==> r == GuideData[code.value]
    ensures !(code.Some? && code.value in GuideData) ==>
      && r.spot == DefaultSpot && r.food == DefaultFood
      && r.hidden == DefaultHidden && r.desc == DefaultDesc
      && Names(r.name, r.en) == TitleNames(title)
  {
    if code.Some? && code.value in GuideData then GuideData[code.value]
    else
      var n := TitleNames(title);
      Record(n.name, n.en, DefaultSpot, DefaultFood, DefaultHidden, DefaultDesc)
  }

  /** A title `a/b...` yields the trimmed `a` as name and the trimmed `b` as
      English name, whatever follows a second `/`. (The check that the second
      segment is nonempty changes nothing, as trimming an empty text gives an
      empty text.) */
  lemma TitleNamesOfSegments(a: string, b: string, rest: string)
    requires '/' !in a && '/' !in b
    requires rest == [] || rest[0] == '/'
    ensures TitleNames(Some(a + "/" + b + rest)) == Names(Trim(JsWhitespace, a), Trim(JsWhitespace, b))
  {
    var t := a + "/" + b + rest;
    SegmentsOf(a, b, rest);
    if b == [] {
      TrimCharacterization(JsWhitespace, b, [], [], []);
    }
  }

  lemma SegmentsOf(a: string, b: string, rest: string)
    requires '/' !in a && '/' !in b
    requires rest == [] || rest[0] == '/'
    ensures var t := a + "/" + b + rest;
      && '/' in t
      && PrefixBefore(t, '/') == a
      && PrefixBefore(t[|a| + 1..], '/') == b
  {
    var t := a + "/" + b + rest;
    assert t == a + ("/" + b + rest);
    PrefixBeforeOf(a, '/', "/" + b + rest);
    assert t[|a|] == '/';
    assert t[|a| + 1..] == b + rest;
    PrefixBeforeOf(b, '/', rest);
  }

  /** A title without `/` is the name alone, with no English name. */
  lemma TitleNamesWithoutSlash(a: string)
    requires '/' !in a
    ensures TitleNames(Some(a)) == Names(Trim(JsWhitespace, a), "")
  {
    PrefixBeforeOf(a, '/', []);
    assert a + [] == a;
  }

  /** The five prefectures with an entry; every other code falls back. */
  lemma GuideCodes()
    ensures forall c :: c in GuideData <==> c == 1 || c == 13 || c == 26 || c == 27 || c == 47
  {
  }

  /** Every stored record has texts of its own: none of its spot, food,
      hidden spot or description is the fallback text. */
  lemma StoredRecordsDiffer()
    ensures forall c :: c in GuideData ==>
      && GuideData[c].spot != DefaultSpot && GuideData[c].food != DefaultFood
      && GuideData[c].hidden != DefaultHidden && GuideData[c].desc != DefaultDesc
  {
  }

  /** The panel shows a prefecture's own texts exactly when its code has an
      entry, so the two branches of the lookup can be told apart. */
  lemma LookupShowsOwnTexts(code: Option<int>, title: Option<string>)
    ensures Lookup(code, title).spot != DefaultSpot <==> code.Some? && code.value in GuideData
    ensures Lookup(code, title).desc != DefaultDesc <==> code.Some? && code.value in GuideData
  {
    StoredRecordsDiffer();
  }

  /** A code with an entry shows that entry whatever the title says. */
  lemma LookupIgnoresTitle(c: int, t1: Option<string>, t2: Option<string>)
    requires c in GuideData
    ensures Lookup(Some(c), t1) == Lookup(Some(c), t2) == GuideData[c]
  {
  }

  /** A region without an entry keeps its own name from a `name/english`
      title and shows the fallback texts. */
  lemma LookupFallsBackToTitle(code: Option<int>, a: string, b: string)
    requires code.None? || code.value !in GuideData
    requires '/' !in a && '/' !in b
    ensures Lookup(code, Some(a + "/" + b)) ==
      Record(Trim(JsWhitespace, a), Trim(JsWhitespace, b),
             DefaultSpot, DefaultFood, DefaultHidden, DefaultDesc)
  {
    TitleNamesOfSegments(a, b, []);
    assert a + "/" + b + [] == a + "/" + b;
  }
}
