/** The article server of blog.py: name validation, the menu of sibling
    articles, the article body with its 404 fallback, token substitution into
    the page template, and the request decisions of the WSGI entry point.
    The directory, the page template file and the markdown converter are
    parameters. */
module Blog {
  import opened Strings
  import opened Sorting

  // ---------------------------------------------------------------------
  // valid_article

  /** `\w` restricted to ASCII: letters, digits and the underscore. */
  predicate IsWordChar(c: char) {
    'a' <= c <= 'z' || 'A' <= c <= 'Z' || '0' <= c <= '9' || c == '_'
  }

  /** `\s` restricted to ASCII: the characters for which `str.isspace` holds. */
  predicate IsSpaceChar(c: char) {
    c == ' ' || '\t' <= c <= '\r' || '\U{001C}' <= c <= '\U{001F}'
  }

  /** The character class `[\w\s]`. */
  predicate IsNameChar(c: char) {
    IsWordChar(c) || IsSpaceChar(c)
  }

  /** `re.match('^[\w\s]+$', name)`: one name character followed by zero or
      more, up to the end of the name. */
  predicate ValidArticle(name: string)
    ensures ValidArticle(name) ==> name != [] && forall c :: c in name ==> IsNameChar(c)
    decreases |name|
  {
    |name| > 0 && IsNameChar(name[0]) && (|name| == 1 || ValidArticle(name[1..]))
  }

  /** A name is valid exactly when it is non-empty and made only of word and
      whitespace characters. */
  lemma {:induction false} ValidArticleIff(name: string)
    ensures ValidArticle(name) <==> name != [] && forall i :: 0 <= i < |name| ==> IsNameChar(name[i])
    decreases |name|
  {
    if |name| > 1 {
      ValidArticleIff(name[1..]);
      assert forall i :: 1 <= i < |name| ==> name[1..][i - 1] == name[i];
    }
  }

  /** A valid name cannot leave the article directory: it has no path
      separator and is neither `.` nor `..`, nor a hidden file. */
  lemma ValidArticleIsPlainFileName(name: string)
    requires ValidArticle(name)
    ensures '/' !in name && '.' !in name
  {
    ValidArticleIff(name);
  }

  /** The empty name, hidden files, relative paths and names with a file
      extension or a punctuation character are rejected. */
  lemma InvalidArticleExamples()
    ensures !ValidArticle("") && !ValidArticle(".env") && !ValidArticle("../x")
    ensures !ValidArticle("a.md") && !ValidArticle("bad*name")
  {
    assert "a.md"[1..] == ".md";
    assert "bad*name"[1..] == "ad*name" && "ad*name"[1..] == "d*name" && "d*name"[1..] == "*name";
  }

  // ---------------------------------------------------------------------
  // format_menu

  const ArticleToken := "¤article¤"

  /** The menu item of an article other than the requested one,
      `<a href="?¤article¤">¤article¤</a>`. */
  const PlainItem := "<a href=\"?" + ArticleToken + "\">" + ArticleToken + "</a>"

  /** The menu item of the requested article,
      `<a id="current" href="?¤article¤">¤article¤</a>`. */
  const CurrentItem := "<a id=\"current\" href=\"?" + ArticleToken + "\">" + ArticleToken + "</a>"

  /** A menu link to `file`, written out; `current` marks the requested article. */
  function Anchor(file: string, current: bool): string {
    (if current then "<a id=\"current\" href=\"?" else "<a href=\"?") + file + "\">" + file + "</a>"
  }

  /** One menu item: the item template with both tokens replaced by `file`. */
  function Item(file: string, article: string): string {
    ReplaceAll(if file != article then PlainItem else CurrentItem, ArticleToken, file)
  }

  /** An item template, whose head is free of token characters, with both
      tokens replaced by `file`. */
  lemma ItemTemplateFilled(head: string, file: string)
    requires ArticleToken[0] !in head
    ensures ReplaceAll(head + ArticleToken + "\">" + ArticleToken + "</a>", ArticleToken, file) ==
            head + file + "\">" + file + "</a>"
  {
    var middle, tail := "\">", "</a>";
    assert head + ArticleToken + middle + ArticleToken + tail == head + ArticleToken + (middle + ArticleToken + tail);
    ReplaceAllSplice(head, middle + ArticleToken + tail, ArticleToken, file);
    ReplaceAllSplice(middle, tail, ArticleToken, file);
    ReplaceAllPlainPrefix(tail, "", ArticleToken, file);
    assert tail + "" == tail;
  }

  /** Both tokens of the item template are replaced by the file name, and the
      name is not scanned for tokens again. */
  lemma ItemIsAnchor(file: string, article: string)
    ensures Item(file, article) == Anchor(file, file == article)
  {
    if file != article {
      ItemTemplateFilled("<a href=\"?", file);
    } else {
      ItemTemplateFilled("<a id=\"current\" href=\"?", file);
    }
  }

  /** The valid entries of `files`, in their order. */
  function Valids(files: seq<string>): seq<string>
    decreases |files|
  {
    if files == [] then []
    else
      var file := files[|files| - 1];
      Valids(files[..|files| - 1]) + (if ValidArticle(file) then [file] else [])
  }

  /** Each valid entry is kept as often as it occurs; invalid ones are dropped. */
  lemma {:induction false} ValidsCount(files: seq<string>)
    ensures forall x :: multiset(Valids(files))[x] == if ValidArticle(x) then multiset(files)[x] else 0
    decreases |files|
  {
    if files != [] {
      var init, file := files[..|files| - 1], files[|files| - 1];
      ValidsCount(init);
      assert files == init + [file];
    }
  }

  /** Dropping entries keeps a sorted listing sorted. */
  lemma {:induction false} ValidsSorted(files: seq<string>)
    requires Sorted(files)
    ensures Sorted(Valids(files))
    decreases |files|
  {
    if files != [] {
      var init, file := files[..|files| - 1], files[|files| - 1];
      assert Sorted(init);
      ValidsSorted(init);
      ValidsCount(init);
      var v := Valids(init);
      forall i | 0 <= i < |v| ensures LexLe(v[i], file) {
        assert v[i] in multiset(v);
        var k :| 0 <= k < |init| && init[k] == v[i];
        assert files[k] == v[i];
      }
    }
  }

  /** The menu items of the valid entries of `files`, in their order. */
  function MenuItems(files: seq<string>, article: string): (items: seq<string>)
    ensures |items| == |Valids(files)|
    decreases |files|
  {
    if files == [] then []
    else
      var file := files[|files| - 1];
      MenuItems(files[..|files| - 1], article) + (if ValidArticle(file) then [Item(file, article)] else [])
  }

  /** There is one item per valid entry, and the item at each position is the
      link to that entry, marked current exactly when it is the requested
      article. */
  lemma {:induction false} MenuItemsAt(files: seq<string>, article: string)
    ensures forall i :: 0 <= i < |Valids(files)| ==>
      MenuItems(files, article)[i] == Anchor(Valids(files)[i], Valids(files)[i] == article)
    decreases |files|
  {
    if files != [] {
      var file := files[|files| - 1];
      MenuItemsAt(files[..|files| - 1], article);
      ItemIsAnchor(file, article);
    }
  }

  /** The entries the menu shows: the valid names of the sorted listing. */
  function MenuNames(listing: seq<string>): seq<string> {
    Valids(Sort(listing))
  }

  /** The menu of `format_menu`. */
  function Menu(listing: seq<string>, article: string): string {
    Join(MenuItems(Sort(listing), article), "\n")
  }

  /** The menu shows the valid names in sorted order, each as often as the
      listing holds it, and no invalid name. */
  lemma MenuNamesSpec(listing: seq<string>)
    ensures Sorted(MenuNames(listing))
    ensures forall x :: multiset(MenuNames(listing))[x] == if ValidArticle(x) then multiset(listing)[x] else 0
    ensures forall i :: 0 <= i < |MenuNames(listing)| ==> ValidArticle(MenuNames(listing)[i])
  {
    SortSorted(listing);
    ValidsSorted(Sort(listing));
    ValidsCount(Sort(listing));
    var names := MenuNames(listing);
    forall i | 0 <= i < |names| ensures ValidArticle(names[i]) {
      assert names[i] in multiset(names);
    }
  }

  /** A menu name is a valid entry of the listing. */
  lemma MenuNameInListing(listing: seq<string>, i: nat)
    requires i < |MenuNames(listing)|
    ensures ValidArticle(MenuNames(listing)[i]) && MenuNames(listing)[i] in listing
  {
    MenuNamesSpec(listing);
    var x := MenuNames(listing)[i];
    assert x in multiset(MenuNames(listing));
    assert x in multiset(listing);
  }

  /** Read line by line, the menu is the list of links to the menu names,
      each on its own line, when no valid name contains a newline (`\s`
      admits one); an empty menu is the empty string. */
  lemma MenuLines(listing: seq<string>, article: string)
    requires forall f :: f in listing && ValidArticle(f) ==> '\n' !in f
    ensures MenuNames(listing) == [] ==> Menu(listing, article) == ""
    ensures MenuNames(listing) != [] ==>
      var lines := Split(Menu(listing, article), "\n");
      |lines| == |MenuNames(listing)| &&
      forall i :: 0 <= i < |lines| ==> lines[i] == Anchor(MenuNames(listing)[i], MenuNames(listing)[i] == article)
  {
    var names := MenuNames(listing);
    var items := MenuItems(Sort(listing), article);
    MenuItemsAt(Sort(listing), article);
    if names != [] {
      forall i | 0 <= i < |items| ensures "\n"[0] !in items[i] {
        MenuNameInListing(listing, i);
      }
      SplitJoin(items, "\n");
    }
  }

  /** When the requested article is invalid or not listed, no item is marked
      current. */
  lemma NoCurrentItem(listing: seq<string>, article: string)
    requires !ValidArticle(article) || article !in listing
    ensures forall i :: 0 <= i < |MenuNames(listing)| ==>
      MenuItems(Sort(listing), article)[i] == Anchor(MenuNames(listing)[i], false)
  {
    MenuItemsAt(Sort(listing), article);
    forall i | 0 <= i < |MenuNames(listing)|
      ensures MenuNames(listing)[i] != article
    {
      MenuNameInListing(listing, i);
    }
  }

  /** A valid, listed article has its item marked current. */
  lemma CurrentItemMarked(listing: seq<string>, article: string)
    requires ValidArticle(article) && article in listing
    ensures exists i :: 0 <= i < |MenuNames(listing)| && MenuNames(listing)[i] == article
                        && MenuItems(Sort(listing), article)[i] == Anchor(article, true)
  {
    MenuNamesSpec(listing);
    MenuItemsAt(Sort(listing), article);
    assert article in multiset(listing);
    assert article in multiset(MenuNames(listing));
    var i :| 0 <= i < |MenuNames(listing)| && MenuNames(listing)[i] == article;
  }

  /** `format_menu` with the directory listing given: sort it, skip invalid
      names, render each remaining one and join the items with newlines. */
  method FormatMenu(listing: seq<string>, article: string) returns (menu: string)
    ensures menu == Menu(listing, article)
  {
    var files := Sort(listing);
    var items: seq<string> := [];
    for i := 0 to |files|
      invariant items == MenuItems(files[..i], article)
    {
      var file := files[i];
      assert files[..i + 1][..i] == files[..i];
      if !ValidArticle(file) {
        continue;
      }
      var template := if file != article then PlainItem else CurrentItem;
      var item := Replace(template, ArticleToken, file);
      items := items + [item];
    }
    assert files[..|files|] == files;
    menu := Join(items, "\n");
  }

  // ---------------------------------------------------------------------
  // format_article

  /** The article body served for an invalid or missing article. */
  const NotFoundHtml := "<p class=\"notfound\">404</p>"

  /** The article directory: the names `listdir` returns, in its order, and
      the regular files in it (what `path.isfile` accepts) with their text. */
  datatype ArticleDir = ArticleDir(listing: seq<string>, files: map<string, string>)

  /** `format_article`: the 404 body for an invalid name or a missing file,
      otherwise the converted text of the file. */
  function FormatArticle(dir: ArticleDir, filename: string, markdown: string -> string): (html: string)
    ensures !ValidArticle(filename) ==> html == NotFoundHtml
    ensures ValidArticle(filename) && filename !in dir.files ==> html == NotFoundHtml
    ensures ValidArticle(filename) && filename in dir.files ==> html == markdown(dir.files[filename])
  {
    if !ValidArticle(filename) then NotFoundHtml
    else if filename !in dir.files then NotFoundHtml
    else markdown(dir.files[filename])
  }

  /** An invalid name gets the 404 body whatever the directory holds and
      whatever the converter does: neither is consulted. */
  lemma InvalidArticleIgnoresDirectory(filename: string, dir1: ArticleDir, dir2: ArticleDir,
                                       markdown1: string -> string, markdown2: string -> string)
    requires !ValidArticle(filename)
    ensures FormatArticle(dir1, filename, markdown1) == FormatArticle(dir2, filename, markdown2) == NotFoundHtml
  {
  }

  /** Names that try to reach outside the directory, or a hidden file, get
      the 404 body. */
  lemma EscapingNamesNotFound(dir: ArticleDir, markdown: string -> string)
    ensures FormatArticle(dir, "../secret", markdown) == NotFoundHtml
    ensures FormatArticle(dir, ".env", markdown) == NotFoundHtml
    ensures FormatArticle(dir, "a/b", markdown) == NotFoundHtml
  {
    ValidArticleIff("a/b");
    assert "a/b"[1] == '/';
  }

  // ---------------------------------------------------------------------
  // format_page

  const TitleToken := "¤title¤"
  const MenuToken := "¤menu¤"

  /** The tokens of the page template, in the order the replacements
      dictionary lists them. */
  const PageKeys := [TitleToken, ArticleToken, MenuToken]

  /** The replacements dictionary of `format_page`. */
  function PageReplacements(title: string, article: string, menu: string): map<string, string> {
    map[TitleToken := title, ArticleToken := article, MenuToken := menu]
  }

  /** Every key is non-empty and has a replacement. */
  predicate KeysBound(keys: seq<string>, replacements: map<string, string>) {
    forall i :: 0 <= i < |keys| ==> keys[i] in replacements && keys[i] != []
  }

  /** Replaces each key in turn, in the order given, in the result of the
      previous replacements. */
  function ApplyReplacements(template: string, keys: seq<string>, replacements: map<string, string>): string
    requires KeysBound(keys, replacements)
    decreases |keys|
  {
    if keys == [] then template
    else
      var key := keys[|keys| - 1];
      assert KeysBound(keys[..|keys| - 1], replacements);
      ReplaceAll(ApplyReplacements(template, keys[..|keys| - 1], replacements), key, replacements[key])
  }

  /** The page of `format_page`: the replacements applied longest key first. */
  function Page(template: string, title: string, article: string, menu: string): string {
    PageKeysBound(title, article, menu);
    ApplyReplacements(template, ByLengthDesc(PageKeys), PageReplacements(title, article, menu))
  }

  /** Every page token, in whatever order, is non-empty and has a value. */
  lemma PageKeysBound(title: string, article: string, menu: string)
    ensures KeysBound(ByLengthDesc(PageKeys), PageReplacements(title, article, menu))
  {
    var keys := ByLengthDesc(PageKeys);
    forall i | 0 <= i < |keys| ensures keys[i] in PageKeys {
      assert keys[i] in multiset(keys);
    }
  }

  /** Longest key first puts `¤article¤` (9 characters) before `¤title¤` (7)
      before `¤menu¤` (6). */
  lemma PageKeyOrder()
    ensures ByLengthDesc(PageKeys) == [ArticleToken, TitleToken, MenuToken]
  {
    assert |ArticleToken| == 9 && |TitleToken| == 7 && |MenuToken| == 6;
    assert PageKeys[1..] == [ArticleToken, MenuToken];
    assert PageKeys[1..][1..] == [MenuToken];
    assert [MenuToken][1..] == [];
    assert ByLengthDesc([MenuToken]) == [MenuToken] by {
      assert InsertByLength(MenuToken, []) == [MenuToken];
    }
    assert ByLengthDesc([ArticleToken, MenuToken]) == [ArticleToken, MenuToken] by {
      assert InsertByLength(ArticleToken, [MenuToken]) == [ArticleToken, MenuToken];
    }
    assert InsertByLength(TitleToken, [MenuToken]) == [TitleToken, MenuToken];
    assert [ArticleToken, MenuToken][1..] == [MenuToken];
    assert InsertByLength(TitleToken, [ArticleToken, MenuToken]) == [ArticleToken, TitleToken, MenuToken];
  }

  /** The page is the template with every `¤article¤` replaced, then every
      `¤title¤` of that, then every `¤menu¤` of that. */
  lemma PageInOrder(template: string, title: string, article: string, menu: string)
    ensures Page(template, title, article, menu) ==
      ReplaceAll(ReplaceAll(ReplaceAll(template, ArticleToken, article), TitleToken, title), MenuToken, menu)
  {
    PageKeyOrder();
    PageKeysBound(title, article, menu);
    var keys := [ArticleToken, TitleToken, MenuToken];
    var m := PageReplacements(title, article, menu);
    assert |ArticleToken| == 9 && |TitleToken| == 7 && |MenuToken| == 6;
    assert m[ArticleToken] == article && m[TitleToken] == title && m[MenuToken] == menu;
    assert keys[..2] == [ArticleToken, TitleToken];
    assert keys[..2][..1] == [ArticleToken];
    assert keys[..2][..1][..0] == [];
    var step1 := ApplyReplacements(template, [ArticleToken], m);
    assert [ArticleToken][..0] == [];
    assert ApplyReplacements(template, [], m) == template;
    assert step1 == ReplaceAll(template, ArticleToken, article);
    var step2 := ApplyReplacements(template, [ArticleToken, TitleToken], m);
    assert step2 == ReplaceAll(step1, TitleToken, title);
    assert ApplyReplacements(template, keys, m) == ReplaceAll(step2, MenuToken, menu);
  }

  /** A template without any of the three tokens is returned unchanged. */
  lemma PageWithoutTokens(template: string, title: string, article: string, menu: string)
    requires !Occurs(ArticleToken, template) && !Occurs(TitleToken, template) && !Occurs(MenuToken, template)
    ensures Page(template, title, article, menu) == template
  {
    PageInOrder(template, title, article, menu);
    ReplaceAllWithoutToken(template, ArticleToken, article);
    ReplaceAllWithoutToken(template, TitleToken, title);
    ReplaceAllWithoutToken(template, MenuToken, menu);
  }

  /** Text shorter than a token does not contain it. */
  lemma TooShortForToken(s: string, token: string)
    requires |s| < |token|
    ensures !Occurs(token, s)
  {
  }

  /** In the title's place the page shows the title with its `¤menu¤` tokens
      replaced by the menu; an `¤article¤` in the title is left as it is,
      since that replacement has already run. */
  lemma PageTitleSlot(title: string, article: string, menu: string)
    ensures Page(TitleToken, title, article, menu) == ReplaceAll(title, MenuToken, menu)
  {
    PageInOrder(TitleToken, title, article, menu);
    TooShortForToken(TitleToken, ArticleToken);
    ReplaceAllWithoutToken(TitleToken, ArticleToken, article);
    ReplaceAllSplice("", "", TitleToken, title);
    assert "" + TitleToken + "" == TitleToken;
    assert "" + title + "" == title;
  }

  /** In the article's place the page shows the article with its `¤title¤`
      tokens replaced by the title and then all `¤menu¤` tokens by the menu. */
  lemma PageArticleSlot(title: string, article: string, menu: string)
    ensures Page(ArticleToken, title, article, menu) ==
      ReplaceAll(ReplaceAll(article, TitleToken, title), MenuToken, menu)
  {
    PageInOrder(ArticleToken, title, article, menu);
    ReplaceAllSplice("", "", ArticleToken, article);
    assert "" + ArticleToken + "" == ArticleToken;
    assert "" + article + "" == article;
  }

  /** `format_page`: replace each token, longest first, in the result of the
      previous replacement. */
  method FormatPage(template: string, title: string, article: string, menu: string) returns (result: string)
    ensures result == Page(template, title, article, menu)
  {
    var replacements := PageReplacements(title, article, menu);
    var keys := ByLengthDesc(PageKeys);
    PageKeysBound(title, article, menu);
    result := template;
    for i := 0 to |keys|
      invariant result == ApplyReplacements(template, keys[..i], replacements)
    {
      assert keys[..i + 1][..i] == keys[..i];
      result := Replace(result, keys[i], replacements[keys[i]]);
    }
    assert keys[..|keys|] == keys;
  }

  // ---------------------------------------------------------------------
  // render and application

  /** The page `render` produces for `article`, with the page template read
      from page.html. */
  function RenderedPage(pageTemplate: string, article: string, dir: ArticleDir, markdown: string -> string): string {
    Page(pageTemplate, article, FormatArticle(dir, article, markdown), Menu(dir.listing, article))
  }

  /** `render`: the requested name is the title, its article body and the
      menu around it fill the page template. */
  method Render(pageTemplate: string, article: string, dir: ArticleDir, markdown: string -> string)
    returns (page: string)
    ensures page == RenderedPage(pageTemplate, article, dir, markdown)
  {
    var body := FormatArticle(dir, article, markdown);
    var menu := FormatMenu(dir.listing, article);
    page := FormatPage(pageTemplate, article, body, menu);
  }

  const DefaultArticle := "Hello world"
  const StatusOk := "200 OK"
  const StatusNotFound := "404 Not Found"

  lemma DefaultArticleValid()
    ensures ValidArticle(DefaultArticle)
  {
    ValidArticleIff(DefaultArticle);
  }

  /** The article a decoded query asks for: the query itself, or the default
      article when it is empty. Validity is decided by the query alone. */
  function RequestedArticle(query: string): (article: string)
    ensures article != []
    ensures ValidArticle(article) <==> query == [] || ValidArticle(query)
  {
    DefaultArticleValid();
    if query == [] then DefaultArticle else query
  }

  /** The status line and page body `application` answers with. */
  datatype Response = Response(status: string, body: string)

  /** `application` with the query string already percent-decoded: the empty
      query asks for the default article; the status is `404 Not Found`
      exactly when the name is invalid, and the body is the rendered page. */
  method Application(query: string, pageTemplate: string, dir: ArticleDir, markdown: string -> string)
    returns (response: Response)
    ensures response.status == (if ValidArticle(RequestedArticle(query)) then StatusOk else StatusNotFound)
    ensures response.body == RenderedPage(pageTemplate, RequestedArticle(query), dir, markdown)
  {
    var article := query;
    if article == [] {
      article := DefaultArticle;
    }
    var status := StatusOk;
    if !ValidArticle(article) {
      status := StatusNotFound;
    }
    var output := Render(pageTemplate, article, dir, markdown);
    response := Response(status, output);
  }

  /** The empty query is answered with `200 OK` and the default article. */
  lemma EmptyQueryServesDefault()
    ensures RequestedArticle("") == DefaultArticle && ValidArticle(RequestedArticle(""))
  {
    DefaultArticleValid();
  }

  /** A valid name without a file is answered with `200 OK` (only an invalid
      name sets `404 Not Found`), yet its article body is the 404 body. */
  lemma ValidMissingArticle(query: string, pageTemplate: string, dir: ArticleDir, markdown: string -> string)
    requires ValidArticle(query) && query !in dir.files
    ensures ValidArticle(RequestedArticle(query))
    ensures RenderedPage(pageTemplate, RequestedArticle(query), dir, markdown) ==
      Page(pageTemplate, query, NotFoundHtml, Menu(dir.listing, query))
  {
  }

  /** For an invalid name the page depends only on the listing, has the 404
      body and marks no menu item current; the raw name is still the title. */
  lemma InvalidRequestPage(article: string, pageTemplate: string, dir: ArticleDir, markdown: string -> string)
    requires !ValidArticle(article)
    ensures RenderedPage(pageTemplate, article, dir, markdown) ==
      Page(pageTemplate, article, NotFoundHtml, Menu(dir.listing, article))
    ensures forall i :: 0 <= i < |MenuNames(dir.listing)| ==>
      MenuItems(Sort(dir.listing), article)[i] == Anchor(MenuNames(dir.listing)[i], false)
  {
    NoCurrentItem(dir.listing, article);
  }
}
