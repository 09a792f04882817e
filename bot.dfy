/** The Telegram bot's pure logic: translation lookup, the paginated
    university and professor keyboards, the details keyboard, the rankings
    and professor previews, and the callback-data strings the buttons carry
    together with the routing of a pressed button. The database is the final
    table with its nulls read back as empty strings; JSON cells come already
    decoded, `None` standing for a cell `json.loads` rejects. */
module Bot {
  import opened Wrappers
  import opened Text

  const UniversitiesPerPage: nat := 8
  const ProfessorsPerPage: nat := 10
  const RankingsShown: nat := 15
  const PreviewShown: nat := 5

  const DefaultLanguage := "fa"
  const LanguageKey := "language"
  const NotAvailable := "N/A"
  const Bullet := "▫️ "

  function Min(a: nat, b: nat): nat { if a <= b then a else b }

  // ---------------------------------------------------------------------
  // t(key, context)

  type Table = map<string, string>

  /** The user's language table, `fa` for a language without one; within
      it the key's text, or the key itself when the table lacks it. */
  function Translate(tables: map<string, Table>, lang: string, key: string): (s: string)
    requires DefaultLanguage in tables
    ensures lang in tables && key in tables[lang] ==> s == tables[lang][key]
    ensures lang !in tables && key in tables[DefaultLanguage] ==> s == tables[DefaultLanguage][key]
    ensures s != key ==> key in (if lang in tables then tables[lang] else tables[DefaultLanguage])
  {
    var table := if lang in tables then tables[lang] else tables[DefaultLanguage];
    if key in table then table[key] else key
  }

  /** A language without a table reads exactly like `fa`. */
  lemma UnknownLanguageIsDefault(tables: map<string, Table>, lang: string, key: string)
    requires DefaultLanguage in tables && lang !in tables
    ensures Translate(tables, lang, key) == Translate(tables, DefaultLanguage, key)
  {
  }

  // ---------------------------------------------------------------------
  // Rows of the database as the bot reads them

  /** A professor record of the professors cell; `None` is a missing key,
      which `p.get` replaces by its default. */
  datatype ProfEntry = ProfEntry(name: Option<string>, homepage: Option<string>, areas: Option<string>)

  /** A row of the final table with nulls read as "". */
  datatype BotUniversity = BotUniversity(name: string, website: string, data: string,
                                         rankings: Option<seq<string>>,
                                         deadlineInfo: string, deadlineUrl: string,
                                         professorsText: string, professors: Option<seq<ProfEntry>>)

  // ---------------------------------------------------------------------
  // Callback data

  const MainMenuData := "main_menu"
  const HelpData := "help"
  const ChangeLanguageData := "change_lang"
  const ShowUniversitiesData := "show_unis_0"
  const SetLanguagePrefix := "set_lang_"
  const ShowUniversitiesPrefix := "show_unis_"
  const PagePrefix := "page_"
  const UniversityPrefix := "uni_"
  const DetailPrefix := "detail_"
  const ProfessorsAllPrefix := "prof_all_"
  const ProfessorsPagePrefix := "prof_page_"

  function PageData(page: nat): string { PagePrefix + NatToString(page) }
  function UniversityData(index: nat): string { UniversityPrefix + NatToString(index) }
  function DetailData(category: string, index: nat): string { DetailPrefix + category + "_" + NatToString(index) }
  function ProfessorsPageData(index: nat, page: nat): string {
    ProfessorsPagePrefix + NatToString(index) + "_" + NatToString(page)
  }
  function ProfessorsAllData(index: nat): string { ProfessorsAllPrefix + NatToString(index) + "_0" }
  function SetLanguageData(code: string): string { SetLanguagePrefix + code }

  /** What pressing a button makes the bot do. `HandlerError` is a
      `ValueError` or `IndexError` that escapes the handler. */
  datatype Effect =
    | ShowMainMenu
    | ShowHelp
    | ShowLanguageMenu
    | SetLanguage(code: string)
    | ShowUniversityList(page: nat)
    | ShowDetails(index: nat, category: Option<string>)
    | ShowProfessors(index: nat, page: nat)
    | HandlerError

  /** `int(parts[k])`: `None` for a missing part or a non-number. */
  function IntAt(parts: seq<string>, k: int): Option<nat> {
    if 0 <= k < |parts| then ParseNat(parts[k]) else None
  }

  /** The first chain of `button_callback`: help, language menu, set language. */
  function LanguageEffects(data: string): seq<Effect> {
    if data == HelpData then [ShowHelp]
    else if data == ChangeLanguageData then [ShowLanguageMenu]
    else if StartsWith(data, SetLanguagePrefix) then
      var parts := Split(data, '_');
      [SetLanguage(parts[|parts| - 1]), ShowMainMenu]
    else []
  }

  /** The list-page branch: the page number is part 2 of `show_unis_{p}`
      and part 1 of `page_{p}`. */
  function ListEffects(parts: seq<string>, k: nat): seq<Effect> {
    match IntAt(parts, k)
    case Some(page) => [ShowUniversityList(page)]
    case None => [HandlerError]
  }

  /** The university branch: `uni_{i}`. */
  function UniversityEffects(parts: seq<string>): seq<Effect> {
    match IntAt(parts, 1)
    case Some(index) => [ShowDetails(index, None)]
    case None => [HandlerError]
  }

  /** The details branch: `detail_{cat}_{i}` must split into exactly three
      parts. */
  function DetailEffects(parts: seq<string>): seq<Effect> {
    if |parts| != 3 then [HandlerError]
    else
      match ParseNat(parts[2])
      case Some(index) => [ShowDetails(index, Some(parts[1]))]
      case None => [HandlerError]
  }

  /** The professors branch: the index and page are the last two parts. */
  function ProfessorsEffects(parts: seq<string>): seq<Effect> {
    match IntAt(parts, |parts| - 2)
    case None => [HandlerError]
    case Some(index) =>
      match IntAt(parts, |parts| - 1)
      case Some(page) => [ShowProfessors(index, page)]
      case None => [HandlerError]
  }

  /** The second chain of `button_callback`: list pages, a university, a
      details section, a professors page. */
  function NavigationEffects(data: string): seq<Effect> {
    var parts := Split(data, '_');
    if StartsWith(data, ShowUniversitiesPrefix) then ListEffects(parts, 2)
    else if StartsWith(data, PagePrefix) then ListEffects(parts, 1)
    else if StartsWith(data, UniversityPrefix) then UniversityEffects(parts)
    else if StartsWith(data, DetailPrefix) then DetailEffects(parts)
    else if StartsWith(data, ProfessorsAllPrefix) || StartsWith(data, ProfessorsPagePrefix) then ProfessorsEffects(parts)
    else []
  }

  /** `button_callback`: "main_menu" returns at once; otherwise both chains
      run in turn. */
  function Route(data: string): (r: seq<Effect>)
    ensures ChangesLanguage(r) <==> StartsWith(data, SetLanguagePrefix)
  {
    if data == MainMenuData then
      DiffersAt(data, SetLanguagePrefix, 0);
      [ShowMainMenu]
    else
      LanguageChainChangesLanguage(data);
      NavigationKeepsLanguage(data);
      ChangesLanguageAppend(LanguageEffects(data), NavigationEffects(data));
      LanguageEffects(data) + NavigationEffects(data)
  }

  /** Some effect sets the language. */
  predicate ChangesLanguage(effects: seq<Effect>) {
    exists e | e in effects :: e.SetLanguage?
  }

  lemma ChangesLanguageAppend(a: seq<Effect>, b: seq<Effect>)
    ensures ChangesLanguage(a + b) <==> ChangesLanguage(a) || ChangesLanguage(b)
  {
    if ChangesLanguage(a + b) {
      var e :| e in a + b && e.SetLanguage?;
    }
    if ChangesLanguage(a) {
      var e :| e in a && e.SetLanguage?;
      assert e in a + b;
    }
    if ChangesLanguage(b) {
      var e :| e in b && e.SetLanguage?;
      assert e in a + b;
    }
  }

  lemma LanguageChainChangesLanguage(data: string)
    ensures ChangesLanguage(LanguageEffects(data)) <==> StartsWith(data, SetLanguagePrefix)
  {
    if data == HelpData || data == ChangeLanguageData {
      DiffersAt(data, SetLanguagePrefix, 0);
    } else if StartsWith(data, SetLanguagePrefix) {
      assert LanguageEffects(data)[0].SetLanguage?;
    }
  }

  lemma NavigationKeepsLanguage(data: string)
    ensures !ChangesLanguage(NavigationEffects(data))
  {
  }

  lemma DiffersAt(s: string, prefix: string, k: nat)
    requires k < |prefix| && k < |s| && s[k] != prefix[k]
    ensures !StartsWith(s, prefix)
  {
    if |prefix| <= |s| {
      assert s[..|prefix|][k] == s[k];
    }
  }

  lemma PrefixStarts(prefix: string, rest: string)
    ensures StartsWith(prefix + rest, prefix)
  {
    assert (prefix + rest)[..|prefix|] == prefix;
  }

  /** A piece without the separator, then the separator, splits off. */
  lemma SplitCons(a: string, rest: string)
    requires '_' !in a
    ensures Split(a + "_" + rest, '_') == [a] + Split(rest, '_')
  {
    SplitAfterPiece(a, "_" + rest, '_');
    assert ("_" + rest)[1..] == rest;
    assert a + "_" + rest == a + ("_" + rest);
    assert a + "" == a;
  }

  lemma SplitOne(a: string)
    requires '_' !in a
    ensures Split(a, '_') == [a]
  {
    SplitAfterPiece(a, "", '_');
    assert a + "" == a;
  }

  lemma SplitTwo(a: string, b: string)
    requires '_' !in a && '_' !in b
    ensures Split(a + "_" + b, '_') == [a, b]
  {
    SplitCons(a, b);
    SplitOne(b);
  }

  lemma SplitThree(a: string, b: string, c: string)
    requires '_' !in a && '_' !in b && '_' !in c
    ensures Split(a + "_" + b + "_" + c, '_') == [a, b, c]
  {
    assert a + "_" + b + "_" + c == a + "_" + (b + "_" + c);
    SplitCons(a, b + "_" + c);
    SplitTwo(b, c);
  }

  lemma SplitFour(a: string, b: string, c: string, d: string)
    requires '_' !in a && '_' !in b && '_' !in c && '_' !in d
    ensures Split(a + "_" + b + "_" + c + "_" + d, '_') == [a, b, c, d]
  {
    assert a + "_" + b + "_" + c + "_" + d == a + "_" + (b + "_" + c + "_" + d);
    SplitCons(a, b + "_" + c + "_" + d);
    SplitThree(b, c, d);
  }

  lemma NumberHasNoSeparator(n: nat)
    ensures '_' !in NatToString(n)
  {
    NatToStringHasNo(n, '_');
  }

  /** Data that starts with 'p', 'u' or 'd' is no main-menu, help,
      language-menu or set-language data. */
  lemma NotLanguage(data: string)
    requires |data| > 0 && (data[0] == 'p' || data[0] == 'u' || data[0] == 'd')
    ensures data != MainMenuData && LanguageEffects(data) == []
  {
    DiffersAt(data, SetLanguagePrefix, 0);
  }

  lemma PageParts(page: nat)
    ensures var data := PageData(page);
      && data[0] == 'p' && data[1] == 'a'
      && StartsWith(data, PagePrefix)
      && Split(data, '_') == ["page", NatToString(page)]
  {
    var data := PageData(page);
    var digits := NatToString(page);
    assert data == "page" + "_" + digits;
    NumberHasNoSeparator(page);
    SplitTwo("page", digits);
    PrefixStarts(PagePrefix, digits);
  }

  /** `page_{p}` leads to list page p. */
  lemma RoutePage(page: nat)
    ensures Route(PageData(page)) == [ShowUniversityList(page)]
  {
    var data := PageData(page);
    PageParts(page);
    NotLanguage(data);
    DiffersAt(data, ShowUniversitiesPrefix, 0);
    ParseNatToString(page);
  }

  lemma UniversityParts(index: nat)
    ensures var data := UniversityData(index);
      && data[0] == 'u'
      && StartsWith(data, UniversityPrefix)
      && Split(data, '_') == ["uni", NatToString(index)]
  {
    var data := UniversityData(index);
    var digits := NatToString(index);
    assert data == "uni" + "_" + digits;
    NumberHasNoSeparator(index);
    SplitTwo("uni", digits);
    PrefixStarts(UniversityPrefix, digits);
  }

  /** `uni_{i}` leads to university i's details. */
  lemma RouteUniversity(index: nat)
    ensures Route(UniversityData(index)) == [ShowDetails(index, None)]
  {
    var data := UniversityData(index);
    UniversityParts(index);
    NotLanguage(data);
    DiffersAt(data, ShowUniversitiesPrefix, 0);
    DiffersAt(data, PagePrefix, 0);
    ParseNatToString(index);
  }

  lemma DetailParts(category: string, index: nat)
    requires '_' !in category
    ensures var data := DetailData(category, index);
      && data[0] == 'd'
      && StartsWith(data, DetailPrefix)
      && Split(data, '_') == ["detail", category, NatToString(index)]
  {
    var data := DetailData(category, index);
    var digits := NatToString(index);
    assert data == "detail" + "_" + category + "_" + digits;
    NumberHasNoSeparator(index);
    SplitThree("detail", category, digits);
    PrefixStarts(DetailPrefix, category + "_" + digits);
    assert data == DetailPrefix + (category + "_" + digits);
  }

  /** `detail_{cat}_{i}` leads to section cat of university i, for a
      category without an underscore. */
  lemma RouteDetail(category: string, index: nat)
    requires '_' !in category
    ensures Route(DetailData(category, index)) == [ShowDetails(index, Some(category))]
  {
    var data := DetailData(category, index);
    DetailParts(category, index);
    NotLanguage(data);
    DiffersAt(data, ShowUniversitiesPrefix, 0);
    DiffersAt(data, PagePrefix, 0);
    DiffersAt(data, UniversityPrefix, 0);
    ParseNatToString(index);
  }

  /** A callback that starts with one of the two professors prefixes
      routes by its last two parts. */
  lemma RouteProfessorsData(data: string, index: nat, page: nat)
    requires StartsWith(data, ProfessorsAllPrefix) || StartsWith(data, ProfessorsPagePrefix)
    requires var parts := Split(data, '_');
      |parts| >= 2 && parts[|parts| - 2] == NatToString(index) && parts[|parts| - 1] == NatToString(page)
    ensures Route(data) == [ShowProfessors(index, page)]
  {
    assert data[0] == 'p';
    NotLanguage(data);
    ProfessorsPrefixIsProfessors(data);
    ProfessorsParts(Split(data, '_'), index, page);
  }

  lemma ProfessorsPrefixIsProfessors(data: string)
    requires StartsWith(data, ProfessorsAllPrefix) || StartsWith(data, ProfessorsPagePrefix)
    ensures NavigationEffects(data) == ProfessorsEffects(Split(data, '_'))
  {
    assert data[0] == 'p' && data[1] == 'r';
    DiffersAt(data, ShowUniversitiesPrefix, 0);
    DiffersAt(data, PagePrefix, 1);
    DiffersAt(data, UniversityPrefix, 0);
    DiffersAt(data, DetailPrefix, 0);
  }

  lemma ProfessorsParts(parts: seq<string>, index: nat, page: nat)
    requires |parts| >= 2 && parts[|parts| - 2] == NatToString(index) && parts[|parts| - 1] == NatToString(page)
    ensures ProfessorsEffects(parts) == [ShowProfessors(index, page)]
  {
    ParseNatToString(index);
    ParseNatToString(page);
  }

  lemma ProfessorsPageParts(index: nat, page: nat)
    ensures var data := ProfessorsPageData(index, page);
      && StartsWith(data, ProfessorsPagePrefix)
      && Split(data, '_') == ["prof", "page", NatToString(index), NatToString(page)]
  {
    ProfessorsPageStarts(index, page);
    ProfessorsPageSplit(index, page);
  }

  lemma ProfessorsPageStarts(index: nat, page: nat)
    ensures StartsWith(ProfessorsPageData(index, page), ProfessorsPagePrefix)
  {
    var rest := NatToString(index) + "_" + NatToString(page);
    assert ProfessorsPageData(index, page) == ProfessorsPagePrefix + rest;
    PrefixStarts(ProfessorsPagePrefix, rest);
  }

  lemma ProfessorsPageSplit(index: nat, page: nat)
    ensures Split(ProfessorsPageData(index, page), '_') == ["prof", "page", NatToString(index), NatToString(page)]
  {
    var i, p := NatToString(index), NatToString(page);
    assert ProfessorsPageData(index, page) == "prof" + "_" + "page" + "_" + i + "_" + p;
    NumberHasNoSeparator(index);
    NumberHasNoSeparator(page);
    SplitFour("prof", "page", i, p);
  }

  /** `prof_page_{i}_{p}` leads to page p of university i's professors. */
  lemma RouteProfessorsPage(index: nat, page: nat)
    ensures Route(ProfessorsPageData(index, page)) == [ShowProfessors(index, page)]
  {
    ProfessorsPageParts(index, page);
    RouteProfessorsData(ProfessorsPageData(index, page), index, page);
  }

  lemma ProfessorsAllParts(index: nat)
    ensures var data := ProfessorsAllData(index);
      && StartsWith(data, ProfessorsAllPrefix)
      && Split(data, '_') == ["prof", "all", NatToString(index), NatToString(0)]
  {
    var data := ProfessorsAllData(index);
    var i := NatToString(index);
    assert data == "prof" + "_" + "all" + "_" + i + "_" + "0";
    NumberHasNoSeparator(index);
    SplitFour("prof", "all", i, "0");
    PrefixStarts(ProfessorsAllPrefix, i + "_0");
    assert data == ProfessorsAllPrefix + (i + "_0");
    assert NatToString(0) == "0";
  }

  /** `prof_all_{i}_0` leads to the first page of university i's professors. */
  lemma RouteProfessorsAll(index: nat)
    ensures Route(ProfessorsAllData(index)) == [ShowProfessors(index, 0)]
  {
    ProfessorsAllParts(index);
    RouteProfessorsData(ProfessorsAllData(index), index, 0);
  }

  lemma SetLanguageParts(code: string)
    requires '_' !in code
    ensures var data := SetLanguageData(code);
      && data[0] == 's' && data[1] == 'e'
      && StartsWith(data, SetLanguagePrefix)
      && Split(data, '_') == ["set", "lang", code]
  {
    var data := SetLanguageData(code);
    assert data == "set" + "_" + "lang" + "_" + code;
    SplitThree("set", "lang", code);
    PrefixStarts(SetLanguagePrefix, code);
  }

  /** Set-language data matches no navigation prefix. */
  lemma SetLanguageIsNotNavigation(data: string)
    requires |data| > 1 && data[0] == 's' && data[1] == 'e'
    ensures NavigationEffects(data) == []
  {
    DiffersAt(data, ShowUniversitiesPrefix, 1);
    DiffersAt(data, PagePrefix, 0);
    DiffersAt(data, UniversityPrefix, 0);
    DiffersAt(data, DetailPrefix, 0);
    DiffersAt(data, ProfessorsAllPrefix, 0);
    DiffersAt(data, ProfessorsPagePrefix, 0);
  }

  /** `set_lang_{code}` sets the language to code and shows the main menu,
      for a code without an underscore. */
  lemma RouteSetLanguage(code: string)
    requires '_' !in code
    ensures Route(SetLanguageData(code)) == [SetLanguage(code), ShowMainMenu]
  {
    var data := SetLanguageData(code);
    SetLanguageParts(code);
    SetLanguageIsNotNavigation(data);
    DiffersAt(data, HelpData, 0);
    DiffersAt(data, ChangeLanguageData, 0);
    DiffersAt(data, MainMenuData, 0);
  }

  // ---------------------------------------------------------------------
  // Pages

  datatype Window = Window(lo: nat, hi: nat)

  /** `rows[size*page : size*page + size]` of `n` rows, as an index range. */
  function PageWindow(n: nat, page: nat, size: nat): (w: Window)
    ensures w.lo <= w.hi <= n && w.hi - w.lo <= size
  {
    Window(Min(page * size, n), Min(page * size + size, n))
  }

  lemma MulMonotone(a: nat, b: nat, c: nat)
    requires a <= b
    ensures a * c <= b * c
  {
  }

  /** Index i is on page i / size and on no other page. */
  lemma PageOfIndex(n: nat, size: nat, i: nat, page: nat)
    requires 0 < size && i < n
    ensures var w := PageWindow(n, page, size);
      w.lo <= i < w.hi <==> page == i / size
  {
    var q := i / size;
    assert q * size <= i < q * size + size;
    if page < q {
      MulMonotone(page + 1, q, size);
      assert page * size + size == (page + 1) * size;
    } else if page > q {
      MulMonotone(q + 1, page, size);
      assert q * size + size == (q + 1) * size;
    }
  }

  // ---------------------------------------------------------------------
  // Keyboards

  datatype Target = Callback(data: string) | Link(url: string)
  datatype Button = Button(caption: string, target: Target)
  type Keyboard = seq<seq<Button>>

  /** The navigation row of a list page: previous, main menu, next. */
  function UniversityNav(n: nat, page: nat, t: string -> string): seq<Button> {
    (if page > 0 then [Button(t("prev_page"), Callback(PageData(page - 1)))] else [])
    + [Button(t("main_menu_btn"), Callback(MainMenuData))]
    + (if page * UniversitiesPerPage + UniversitiesPerPage < n
       then [Button(t("next_page"), Callback(PageData(page + 1)))] else [])
  }

  /** The buttons of a row that lead to a list page, by that page. */
  ghost predicate LeadsToPage(nav: seq<Button>, q: nat) {
    exists b | b in nav :: b.target.Callback? && Route(b.target.data) == [ShowUniversityList(q)]
  }

  /** Each button of a list page's navigation row carries one of three
      callbacks. */
  lemma UniversityNavTargets(n: nat, page: nat, t: string -> string)
    ensures forall b | b in UniversityNav(n, page, t) ::
      || b.target == Callback(MainMenuData)
      || (page > 0 && b.target == Callback(PageData(page - 1)))
      || (page * UniversitiesPerPage + UniversitiesPerPage < n && b.target == Callback(PageData(page + 1)))
  {
  }

  /** The prev and next buttons appear when their condition holds and lead
      to the page before and the page after; main menu always appears. */
  lemma UniversityNavPresent(n: nat, page: nat, t: string -> string)
    ensures var nav := UniversityNav(n, page, t);
      && Button(t("main_menu_btn"), Callback(MainMenuData)) in nav
      && (page > 0 ==> LeadsToPage(nav, page - 1))
      && (page * UniversitiesPerPage + UniversitiesPerPage < n ==> LeadsToPage(nav, page + 1))
  {
    var nav := UniversityNav(n, page, t);
    UniversityNavShape(n, page, t);
    assert nav[if page > 0 then 1 else 0] in nav;
    if page > 0 {
      PageButtonLeads(nav, 0, page - 1);
    }
    if page * UniversitiesPerPage + UniversitiesPerPage < n {
      PageButtonLeads(nav, |nav| - 1, page + 1);
    }
  }

  lemma UniversityNavShape(n: nat, page: nat, t: string -> string)
    ensures var nav := UniversityNav(n, page, t);
      var k := if page > 0 then 1 else 0;
      && |nav| == k + 1 + (if page * UniversitiesPerPage + UniversitiesPerPage < n then 1 else 0)
      && nav[k] == Button(t("main_menu_btn"), Callback(MainMenuData))
      && (page > 0 ==> nav[0].target == Callback(PageData(page - 1)))
      && (page * UniversitiesPerPage + UniversitiesPerPage < n ==>
            nav[|nav| - 1].target == Callback(PageData(page + 1)))
  {
  }

  lemma PageButtonLeads(nav: seq<Button>, i: nat, p: nat)
    requires i < |nav| && nav[i].target == Callback(PageData(p))
    ensures LeadsToPage(nav, p)
  {
    RoutePage(p);
    assert nav[i] in nav;
  }

  /** No button of the row leads to any other list page. */
  lemma UniversityNavOnly(n: nat, page: nat, t: string -> string, q: nat)
    requires LeadsToPage(UniversityNav(n, page, t), q)
    ensures (page > 0 && q == page - 1) || (page * UniversitiesPerPage + UniversitiesPerPage < n && q == page + 1)
  {
    var nav := UniversityNav(n, page, t);
    UniversityNavTargets(n, page, t);
    var b :| b in nav && b.target.Callback? && Route(b.target.data) == [ShowUniversityList(q)];
    if page > 0 && b.target == Callback(PageData(page - 1)) {
      RoutePage(page - 1);
    } else if b.target == Callback(PageData(page + 1)) {
      RoutePage(page + 1);
    }
  }

  /** Prev appears iff the page is not the first and leads to the page
      before; next appears iff universities remain after this page and leads
      to the page after, which is not empty; main menu always appears. */
  lemma UniversityNavSpec(n: nat, page: nat, t: string -> string)
    ensures var nav := UniversityNav(n, page, t);
      && Button(t("main_menu_btn"), Callback(MainMenuData)) in nav
      && (forall q: nat :: LeadsToPage(nav, q) <==>
            (page > 0 && q == page - 1) || (page * UniversitiesPerPage + UniversitiesPerPage < n && q == page + 1))
      && (page * UniversitiesPerPage + UniversitiesPerPage < n ==>
            PageWindow(n, page + 1, UniversitiesPerPage).lo < PageWindow(n, page + 1, UniversitiesPerPage).hi)
  {
    UniversityNavPresent(n, page, t);
    forall q: nat | LeadsToPage(UniversityNav(n, page, t), q)
      ensures (page > 0 && q == page - 1) || (page * UniversitiesPerPage + UniversitiesPerPage < n && q == page + 1)
    {
      UniversityNavOnly(n, page, t, q);
    }
  }

  /** `build_university_keyboard`: one button per university of the page,
      then the navigation row. */
  method UniversityKeyboard(db: seq<BotUniversity>, page: nat, t: string -> string) returns (kb: Keyboard)
    ensures var w := PageWindow(|db|, page, UniversitiesPerPage);
      && |kb| == w.hi - w.lo + 1
      && (forall k | 0 <= k < w.hi - w.lo ::
            kb[k] == [Button(db[w.lo + k].name, Callback(UniversityData(w.lo + k)))])
      && kb[|kb| - 1] == UniversityNav(|db|, page, t)
  {
    kb := [];
    var startIndex := page * UniversitiesPerPage;
    var endIndex := startIndex + UniversitiesPerPage;
    var idx := Min(startIndex, |db|);
    var w := PageWindow(|db|, page, UniversitiesPerPage);
    while idx < endIndex && idx < |db|
      invariant w.lo <= idx <= w.hi
      invariant |kb| == idx - w.lo
      invariant forall k | 0 <= k < |kb| :: kb[k] == [Button(db[w.lo + k].name, Callback(UniversityData(w.lo + k)))]
    {
      kb := kb + [[Button(db[idx].name, Callback(UniversityData(idx)))]];
      idx := idx + 1;
    }
    var navButtons: seq<Button> := [];
    if page > 0 {
      navButtons := navButtons + [Button(t("prev_page"), Callback(PageData(page - 1)))];
    }
    navButtons := navButtons + [Button(t("main_menu_btn"), Callback(MainMenuData))];
    if endIndex < |db| {
      navButtons := navButtons + [Button(t("next_page"), Callback(PageData(page + 1)))];
    }
    kb := kb + [navButtons];
  }

  /** The list page that the details view's back button returns to. */
  function BackToListPage(index: nat): nat { index / UniversitiesPerPage }

  /** The details keyboard's back button leads to the list page that lists
      the university. */
  lemma BackToListShowsUniversity(n: nat, index: nat)
    requires index < n
    ensures Route(PageData(BackToListPage(index))) == [ShowUniversityList(BackToListPage(index))]
    ensures var w := PageWindow(n, BackToListPage(index), UniversitiesPerPage);
      w.lo <= index < w.hi
  {
    RoutePage(BackToListPage(index));
    PageOfIndex(n, UniversitiesPerPage, index, BackToListPage(index));
  }

  /** The professors cell shows the "all professors" button: non-empty and
      not "[]". */
  predicate HasProfessorsList(professorsText: string) {
    professorsText != "" && professorsText != "[]"
  }

  /** `build_details_keyboard` for university `index`, returning to list
      page `page`. `df_unis.iloc` raises an uncaught IndexError for an index
      outside the table. */
  method DetailsKeyboard(db: seq<BotUniversity>, index: nat, page: nat, t: string -> string) returns (kb: Keyboard)
    requires index < |db|
    ensures |kb| == if HasProfessorsList(db[index].professorsText) then 5 else 4
    ensures kb[0] == [Button(t("uni_details_website"), Link(db[index].website))]
    ensures kb[1] == [Button(t("uni_details_data"), Callback(DetailData("data", index))),
                      Button(t("uni_details_rankings"), Callback(DetailData("rank", index)))]
    ensures kb[2] == [Button(t("uni_details_deadlines"), Callback(DetailData("deadline", index))),
                      Button(t("uni_details_professors"), Callback(DetailData("prof", index)))]
    ensures HasProfessorsList(db[index].professorsText) ==>
      kb[3] == [Button(t("uni_details_all_professors"), Callback(ProfessorsAllData(index)))]
    ensures kb[|kb| - 1] == [Button(t("uni_details_back_to_list"), Callback(PageData(page)))]
  {
    var university := db[index];
    kb := [
      [Button(t("uni_details_website"), Link(university.website))],
      [Button(t("uni_details_data"), Callback(DetailData("data", index))),
       Button(t("uni_details_rankings"), Callback(DetailData("rank", index)))],
      [Button(t("uni_details_deadlines"), Callback(DetailData("deadline", index))),
       Button(t("uni_details_professors"), Callback(DetailData("prof", index)))]
    ];
    if university.professorsText != "" && university.professorsText != "[]" {
      kb := kb + [[Button(t("uni_details_all_professors"), Callback(ProfessorsAllData(index)))]];
    }
    kb := kb + [[Button(t("uni_details_back_to_list"), Callback(PageData(page)))]];
  }

  /** Every callback button of the details keyboard routes to a view of the
      same university, and its back button to the list page holding it. */
  lemma DetailsButtonsRoute(index: nat)
    ensures Route(DetailData("data", index)) == [ShowDetails(index, Some("data"))]
    ensures Route(DetailData("rank", index)) == [ShowDetails(index, Some("rank"))]
    ensures Route(DetailData("deadline", index)) == [ShowDetails(index, Some("deadline"))]
    ensures Route(DetailData("prof", index)) == [ShowDetails(index, Some("prof"))]
    ensures Route(ProfessorsAllData(index)) == [ShowProfessors(index, 0)]
  {
    RouteDetail("data", index);
    RouteDetail("rank", index);
    RouteDetail("deadline", index);
    RouteDetail("prof", index);
    RouteProfessorsAll(index);
  }

  // ---------------------------------------------------------------------
  // Text formatting

  datatype Rankings = RankingsMalformed | NoRankings | RankingLines(lines: seq<string>)

  /** `format_rankings`: at most the first 15 rankings, one bullet line each. */
  function FormatRankings(ranks: Option<seq<string>>): (r: Rankings)
    ensures r.RankingsMalformed? <==> ranks.None?
    ensures r.NoRankings? <==> ranks == Some([])
    ensures r.RankingLines? ==>
      && 1 <= |r.lines| == Min(|ranks.value|, RankingsShown)
      && forall i | 0 <= i < |r.lines| :: r.lines[i] == Bullet + ranks.value[i]
  {
    match ranks
    case None => RankingsMalformed
    case Some(rs) =>
      if rs == [] then NoRankings
      else
        var shown := rs[..Min(|rs|, RankingsShown)];
        RankingLines(seq(|shown|, i requires 0 <= i < |shown| => Bullet + shown[i]))
  }

  datatype PreviewBlock = ProfessorBlock(name: string, areas: string) | MoreBlock(remaining: nat)
  datatype Preview = PreviewMalformed | NoProfessors | PreviewBlocks(blocks: seq<PreviewBlock>)

  /** The block of one previewed professor. */
  function BlockOf(p: ProfEntry): PreviewBlock {
    ProfessorBlock(p.name.GetOr(NotAvailable), p.areas.GetOr(NotAvailable))
  }

  /** How many professors a list of preview blocks accounts for. */
  function Accounted(blocks: seq<PreviewBlock>): nat {
    if blocks == [] then 0
    else (match blocks[0] case ProfessorBlock(_, _) => 1 case MoreBlock(k) => k) + Accounted(blocks[1..])
  }

  /** The first five professors, then an "N more" block for the rest. */
  ghost predicate PreviewOf(profs: seq<ProfEntry>, blocks: seq<PreviewBlock>) {
    var shown := Min(|profs|, PreviewShown);
    && |blocks| == shown + (if |profs| > PreviewShown then 1 else 0)
    && (forall i | 0 <= i < shown :: blocks[i] == BlockOf(profs[i]))
    && (|profs| > PreviewShown ==> blocks[shown] == MoreBlock(|profs| - PreviewShown))
  }

  lemma {:induction false} AccountedProfessors(blocks: seq<PreviewBlock>)
    requires forall i | 0 <= i < |blocks| :: blocks[i].ProfessorBlock?
    ensures Accounted(blocks) == |blocks|
  {
    if blocks != [] {
      AccountedProfessors(blocks[1..]);
    }
  }

  lemma {:induction false} AccountedAppend(a: seq<PreviewBlock>, b: seq<PreviewBlock>)
    ensures Accounted(a + b) == Accounted(a) + Accounted(b)
  {
    if a != [] {
      assert (a + b)[1..] == a[1..] + b;
      AccountedAppend(a[1..], b);
    } else {
      assert a + b == b;
    }
  }

  /** A preview accounts for every professor: those shown plus the "more"
      count make up the whole list. */
  lemma PreviewAccountsForAll(profs: seq<ProfEntry>, blocks: seq<PreviewBlock>)
    requires PreviewOf(profs, blocks)
    ensures Accounted(blocks) == |profs|
  {
    var shown := Min(|profs|, PreviewShown);
    AccountedProfessors(blocks[..shown]);
    AccountedAppend(blocks[..shown], blocks[shown..]);
    assert blocks == blocks[..shown] + blocks[shown..];
    if |profs| > PreviewShown {
      assert blocks[shown..] == [MoreBlock(|profs| - PreviewShown)];
      assert Accounted(blocks[shown..]) == |profs| - PreviewShown + Accounted([]);
    } else {
      assert blocks[shown..] == [];
    }
  }

  /** `format_professors_preview` */
  method FormatProfessorsPreview(profs: Option<seq<ProfEntry>>) returns (r: Preview)
    ensures r.PreviewMalformed? <==> profs.None?
    ensures r.NoProfessors? <==> profs == Some([])
    ensures r.PreviewBlocks? ==> PreviewOf(profs.value, r.blocks)
  {
    if profs.None? {
      return PreviewMalformed;
    }
    var ps := profs.value;
    if ps == [] {
      return NoProfessors;
    }
    var output: seq<PreviewBlock> := [];
    var shown := Min(|ps|, PreviewShown);
    var i := 0;
    while i < shown
      invariant 0 <= i <= shown
      invariant |output| == i
      invariant forall k | 0 <= k < i :: output[k] == BlockOf(ps[k])
    {
      output := output + [ProfessorBlock(ps[i].name.GetOr(NotAvailable), ps[i].areas.GetOr(NotAvailable))];
      i := i + 1;
    }
    if |ps| > PreviewShown {
      output := output + [MoreBlock(|ps| - PreviewShown)];
    }
    return PreviewBlocks(output);
  }

  // ---------------------------------------------------------------------
  // The paginated professor list

  /** One professor line: the name is bold unless the professor has a
      homepage other than "N/A". */
  datatype ProfLine = ProfLine(name: string, bold: bool, areas: string)

  function LineOf(p: ProfEntry): ProfLine {
    var homepage := p.homepage.GetOr("");
    ProfLine(p.name.GetOr(NotAvailable), !(homepage != "" && homepage != NotAvailable), p.areas.GetOr(NotAvailable))
  }

  /** The navigation row of a professors page: previous, back, next. */
  function ProfessorNav(index: nat, page: nat, count: nat, t: string -> string): seq<Button> {
    (if page > 0 then [Button(t("prev_page"), Callback(ProfessorsPageData(index, page - 1)))] else [])
    + [Button(t("prof_list_back"), Callback(UniversityData(index)))]
    + (if page * ProfessorsPerPage + ProfessorsPerPage < count
       then [Button(t("next_page"), Callback(ProfessorsPageData(index, page + 1)))] else [])
  }

  /** The buttons of a row, by what pressing them does. */
  ghost predicate LeadsTo(nav: seq<Button>, e: Effect) {
    exists b | b in nav :: b.target.Callback? && Route(b.target.data) == [e]
  }

  /** Each button of a professors page's navigation row carries one of
      three callbacks. */
  lemma ProfessorNavTargets(index: nat, page: nat, count: nat, t: string -> string)
    ensures forall b | b in ProfessorNav(index, page, count, t) ::
      || b.target == Callback(UniversityData(index))
      || (page > 0 && b.target == Callback(ProfessorsPageData(index, page - 1)))
      || (page * ProfessorsPerPage + ProfessorsPerPage < count && b.target == Callback(ProfessorsPageData(index, page + 1)))
  {
  }

  lemma ProfessorNavShape(index: nat, page: nat, count: nat, t: string -> string)
    ensures var nav := ProfessorNav(index, page, count, t);
      var k := if page > 0 then 1 else 0;
      && |nav| == k + 1 + (if page * ProfessorsPerPage + ProfessorsPerPage < count then 1 else 0)
      && nav[k].target == Callback(UniversityData(index))
      && (page > 0 ==> nav[0].target == Callback(ProfessorsPageData(index, page - 1)))
      && (page * ProfessorsPerPage + ProfessorsPerPage < count ==>
            nav[|nav| - 1].target == Callback(ProfessorsPageData(index, page + 1)))
  {
  }

  lemma ProfessorBackPresent(index: nat, page: nat, count: nat, t: string -> string)
    ensures LeadsTo(ProfessorNav(index, page, count, t), ShowDetails(index, None))
  {
    var nav := ProfessorNav(index, page, count, t);
    ProfessorNavShape(index, page, count, t);
    var back := nav[if page > 0 then 1 else 0];
    RouteUniversity(index);
    assert back in nav;
  }

  lemma ProfessorPrevPresent(index: nat, page: nat, count: nat, t: string -> string)
    requires page > 0
    ensures LeadsTo(ProfessorNav(index, page, count, t), ShowProfessors(index, page - 1))
  {
    var nav := ProfessorNav(index, page, count, t);
    ProfessorNavShape(index, page, count, t);
    var q: nat := page - 1;
    var data := ProfessorsPageData(index, q);
    assert nav[0].target == Callback(data);
    RouteProfessorsPage(index, q);
    assert Route(data) == [ShowProfessors(index, q)];
    assert nav[0] in nav;
  }

  lemma ProfessorNextPresent(index: nat, page: nat, count: nat, t: string -> string)
    requires page * ProfessorsPerPage + ProfessorsPerPage < count
    ensures LeadsTo(ProfessorNav(index, page, count, t), ShowProfessors(index, page + 1))
  {
    var nav := ProfessorNav(index, page, count, t);
    ProfessorNavShape(index, page, count, t);
    RouteProfessorsPage(index, page + 1);
    assert nav[|nav| - 1] in nav;
  }

  lemma ProfessorNavOnly(index: nat, page: nat, count: nat, t: string -> string, q: nat)
    requires LeadsTo(ProfessorNav(index, page, count, t), ShowProfessors(index, q))
    ensures (page > 0 && q == page - 1) || (page * ProfessorsPerPage + ProfessorsPerPage < count && q == page + 1)
  {
    var nav := ProfessorNav(index, page, count, t);
    ProfessorNavTargets(index, page, count, t);
    var b :| b in nav && b.target.Callback? && Route(b.target.data) == [ShowProfessors(index, q)];
    if b.target == Callback(UniversityData(index)) {
      BackIsNotAProfessorsPage(index, q);
      assert false;
    } else if page > 0 && b.target == Callback(ProfessorsPageData(index, page - 1)) {
      ProfessorsPageButton(index, page - 1, q);
    } else {
      ProfessorsPageButton(index, page + 1, q);
    }
  }

  lemma BackIsNotAProfessorsPage(index: nat, q: nat)
    ensures Route(UniversityData(index)) != [ShowProfessors(index, q)]
  {
    RouteUniversity(index);
  }

  lemma ProfessorsPageButton(index: nat, r: nat, q: nat)
    requires Route(ProfessorsPageData(index, r)) == [ShowProfessors(index, q)]
    ensures q == r
  {
    RouteProfessorsPage(index, r);
  }

  /** Professor page q is reachable from the row exactly when it is the
      page before a non-first page or the page after one with professors
      left. */
  lemma ProfessorNavReach(index: nat, page: nat, count: nat, t: string -> string, q: nat)
    ensures LeadsTo(ProfessorNav(index, page, count, t), ShowProfessors(index, q)) <==>
      (page > 0 && q == page - 1) || (page * ProfessorsPerPage + ProfessorsPerPage < count && q == page + 1)
  {
    if page > 0 && q == page - 1 {
      ProfessorPrevPresent(index, page, count, t);
    } else if page * ProfessorsPerPage + ProfessorsPerPage < count && q == page + 1 {
      ProfessorNextPresent(index, page, count, t);
    } else if LeadsTo(ProfessorNav(index, page, count, t), ShowProfessors(index, q)) {
      ProfessorNavOnly(index, page, count, t, q);
      assert false;
    }
  }

  /** Prev appears iff the page is not the first, back always, next iff
      professors remain after this page; each leads to the page it names. */
  lemma ProfessorNavSpec(index: nat, page: nat, count: nat, t: string -> string)
    ensures var nav := ProfessorNav(index, page, count, t);
      && LeadsTo(nav, ShowDetails(index, None))
      && (forall q: nat :: LeadsTo(nav, ShowProfessors(index, q)) <==>
            (page > 0 && q == page - 1) || (page * ProfessorsPerPage + ProfessorsPerPage < count && q == page + 1))
  {
    ProfessorBackPresent(index, page, count, t);
    forall q: nat
      ensures LeadsTo(ProfessorNav(index, page, count, t), ShowProfessors(index, q)) <==>
        (page > 0 && q == page - 1) || (page * ProfessorsPerPage + ProfessorsPerPage < count && q == page + 1)
    {
      ProfessorNavReach(index, page, count, t, q);
    }
  }

  datatype ProfessorsView =
    | ProfessorsNotFound
    | ProfessorsPage(universityName: string, pageNumber: nat, lines: seq<ProfLine>, nav: seq<Button>)

  /** The professors branch of `button_callback` around
      `build_professors_paginated`: an index outside the table or a cell
      `json.loads` rejects gives the "no professors found" text. */
  method BuildProfessorsPaginated(db: seq<BotUniversity>, index: nat, page: nat, t: string -> string)
    returns (v: ProfessorsView)
    ensures v.ProfessorsNotFound? <==> index >= |db| || db[index].professors.None?
    ensures v.ProfessorsPage? ==>
      var ps := db[index].professors.value;
      var w := PageWindow(|ps|, page, ProfessorsPerPage);
      && v.universityName == db[index].name
      && v.pageNumber == page + 1
      && |v.lines| == w.hi - w.lo
      && (forall k | 0 <= k < |v.lines| :: v.lines[k] == LineOf(ps[w.lo + k]))
      && v.nav == ProfessorNav(index, page, |ps|, t)
  {
    if index >= |db| || db[index].professors.None? {
      return ProfessorsNotFound;
    }
    var university := db[index];
    var ps := university.professors.value;
    var startIndex := page * ProfessorsPerPage;
    var endIndex := startIndex + ProfessorsPerPage;
    var w := PageWindow(|ps|, page, ProfessorsPerPage);
    var output: seq<ProfLine> := [];
    var k := Min(startIndex, |ps|);
    while k < endIndex && k < |ps|
      invariant w.lo <= k <= w.hi
      invariant |output| == k - w.lo
      invariant forall j | 0 <= j < |output| :: output[j] == LineOf(ps[w.lo + j])
    {
      var p := ps[k];
      var homepage := p.homepage.GetOr("");
      var bold := true;
      if homepage != "" && homepage != NotAvailable {
        bold := false;
      }
      output := output + [ProfLine(p.name.GetOr(NotAvailable), bold, p.areas.GetOr(NotAvailable))];
      k := k + 1;
    }
    var navButtons: seq<Button> := [];
    if page > 0 {
      navButtons := navButtons + [Button(t("prev_page"), Callback(ProfessorsPageData(index, page - 1)))];
    }
    navButtons := navButtons + [Button(t("prof_list_back"), Callback(UniversityData(index)))];
    if endIndex < |ps| {
      navButtons := navButtons + [Button(t("next_page"), Callback(ProfessorsPageData(index, page + 1)))];
    }
    return ProfessorsPage(university.name, page + 1, output, navButtons);
  }

  // ---------------------------------------------------------------------
  // Per-user state

  datatype StartReply = NoDatabaseReply | MainMenuReply

  /** A user's `context.user_data`. */
  class Session {
    var userData: map<string, string>

    constructor()
      ensures userData == map[]
    {
      userData := map[];
    }

    /** `context.user_data.get('language', 'fa')` */
    function Language(): string
      reads this
    {
      if LanguageKey in userData then userData[LanguageKey] else DefaultLanguage
    }

    /** `t(key, context)` */
    function T(tables: map<string, Table>, key: string): string
      requires DefaultLanguage in tables
      reads this
    {
      Translate(tables, Language(), key)
    }

    /** `/start`: with no database, only the bilingual apology; otherwise the
      language defaults to fa and the main menu is shown. */
    method Start(databaseEmpty: bool) returns (reply: StartReply)
      modifies this
      ensures databaseEmpty ==> reply == NoDatabaseReply && userData == old(userData)
      ensures !databaseEmpty ==>
        && reply == MainMenuReply
        && userData == (if LanguageKey in old(userData) then old(userData)
                        else old(userData)[LanguageKey := DefaultLanguage])
      ensures Language() == old(Language())
    {
      if databaseEmpty {
        return NoDatabaseReply;
      }
      if LanguageKey !in userData {
        userData := userData[LanguageKey := DefaultLanguage];
      }
      return MainMenuReply;
    }

    /** `button_callback`: routes the data and stores a chosen language. */
    method ButtonCallback(data: string) returns (effects: seq<Effect>)
      modifies this
      ensures effects == Route(data)
      ensures forall code :: SetLanguage(code) in effects ==> userData == old(userData)[LanguageKey := code]
      ensures (forall code :: SetLanguage(code) !in effects) ==> userData == old(userData)
    {
      effects := Route(data);
      if data != MainMenuData && data != HelpData && data != ChangeLanguageData && StartsWith(data, SetLanguagePrefix) {
        var parts := Split(data, '_');
        userData := userData[LanguageKey := parts[|parts| - 1]];
      }
    }
  }
}
