# blog.py in Dafny

A model of the small article server in `blog.py`. A request names an article
through the query string. An empty query asks for `Hello world`. The
server answers with one HTML page made from the page template `page.html`:

- the requested name is the title;
- the article body is the markdown file of that name converted to HTML, or
  `<p class="notfound">404</p>` when the name is invalid or no such file
  exists;
- the menu holds one link per valid file name of the article directory.
  Names are sorted by code point, and the requested one carries
  `id="current"`.

A name is valid when it matches `^[\w\s]+$`. The status is `404 Not Found`
exactly when the name is invalid. Otherwise it is `200 OK`, even when the
file is missing.

Three modules:

- `Strings` (strings.dfy) models the Python string operations the program
  uses. `ReplaceAll` is the meaning of `str.replace`: a literal, global,
  non-overlapping, left-to-right replacement. `Replace` is the loop that
  computes it. `Join` and `Split` are `str.join` and `str.split`.
- `Sorting` (sorting.dfy) models the two calls to `sorted`. `Sort` orders
  strings by Python's `<=`, which is `LexLe` here. `ByLengthDesc` orders
  keys longest first, as `sorted(key=len, reverse=True)` does.
- `Blog` (blog.dfy) models `valid_article`, `format_menu`, `format_article`,
  `format_page`, `render` and the decisions of `application`. The loops of
  `format_menu` and `format_page` are methods with loop invariants. Each
  method is proved equal to a specification function (`Menu`, `Page`), and
  the lemmas state the properties of those functions.

The environment is passed in as parameters:

- The article directory is an `ArticleDir`. Its `listing` is what `listdir`
  returns, in that order. Its `files` map each regular file's name to its
  text, which stands for `path.isfile` and `open(...).read()`.
- The markdown converter is a function parameter `markdown: string -> string`.
- The page template is the string read from `page.html`.
- The query is taken as already percent-decoded.

Three consequences of the code as written are proved and kept in the model:

- A valid name with no file is answered `200 OK` with the 404 body
  (`ValidMissingArticle`).
- The raw requested name is used as the page title even when it is invalid
  (`InvalidRequestPage`, `PageTitleSlot`).
- `\s` accepts a newline, so a valid file name with a newline would split
  its menu item over two lines. `MenuLines` therefore assumes that no valid
  entry contains one.

## Model

| member | source | states |
|---|---|---|
| `Blog.ValidArticle` | blog.py:12-15 | `^[\w\s]+$` as a matcher: one name character, then more up to the end; a valid name is non-empty and every character is a word or whitespace character |
| `Blog.ValidArticleIff` | blog.py:12-15 | a name is valid iff it is non-empty and every character is a word or whitespace character |
| `Blog.ValidArticleIsPlainFileName` | blog.py:12-15 | a valid name contains neither `/` nor `.`, so it cannot be a path, `..` or a hidden file |
| `Blog.InvalidArticleExamples` | blog.py:12-15 | `""`, `.env`, `../x`, `a.md` and `bad*name` are rejected |
| `Blog.DefaultArticleValid` | blog.py:104 | the default article `Hello world` is a valid name |
| `Blog.ItemIsAnchor` | blog.py:29-34 | a menu item is its template with both `¤article¤` tokens replaced by the file name; the inserted name is not scanned again |
| `Blog.MenuItemsAt` | blog.py:26-34 | one item per valid entry, in order; the item at position i links to the i-th valid entry and is marked current exactly when that entry equals the requested article |
| `Blog.MenuNamesSpec` | blog.py:26-28 | the menu shows the valid entries sorted; each appears exactly as often as in the listing, and no invalid entry appears |
| `Blog.MenuNameInListing` | blog.py:26-28 | every name in the menu is a valid entry of the listing |
| `Blog.MenuLines` | blog.py:35 | when no valid entry contains a newline, splitting the menu on `"\n"` gives exactly the links to the menu names in order; an empty menu is `""` |
| `Blog.NoCurrentItem` | blog.py:29-32 | if the requested article is invalid or not listed, no item uses the `id="current"` template |
| `Blog.CurrentItemMarked` | blog.py:29-32 | a valid, listed requested article has an item that uses the `id="current"` template |
| `Blog.FormatMenu` | blog.py:24-35 | the loop that sorts, filters, renders and joins computes `Menu(listing, article)` |
| `Blog.FormatArticle` | blog.py:45-54 | the 404 body for an invalid name or a missing file; otherwise the converted file text |
| `Blog.InvalidArticleIgnoresDirectory` | blog.py:46-48 | for an invalid name the result is the 404 body whatever the directory and the converter are |
| `Blog.EscapingNamesNotFound` | blog.py:46-51 | `../secret`, `.env` and `a/b` get the 404 body in every directory |
| `Blog.PageKeyOrder` | blog.py:66-72 | longest key first orders the tokens `¤article¤`, `¤title¤`, `¤menu¤` |
| `Blog.PageInOrder` | blog.py:65-74 | the page replaces every `¤article¤`, then every `¤title¤` in that result, then every `¤menu¤` in that result |
| `Blog.PageWithoutTokens` | blog.py:69-74 | a template containing none of the three tokens is returned unchanged |
| `Blog.PageTitleSlot` | blog.py:66-73 | in the title's place, the title's `¤menu¤` tokens are replaced, but its `¤article¤` tokens are left as they are |
| `Blog.PageArticleSlot` | blog.py:66-73 | in the article's place, the article's `¤title¤` and then `¤menu¤` tokens are replaced by the title and the menu |
| `Blog.FormatPage` | blog.py:65-74 | the loop over the sorted keys computes `Page(template, title, article, menu)` |
| `Blog.Render` | blog.py:83-90 | the page is the template filled with the name as title, its article body and its menu |
| `Blog.RequestedArticle` | blog.py:102-104 | the requested name is never empty; it is valid iff the query is empty or valid |
| `Blog.Application` | blog.py:102-110 | the status is `404 Not Found` iff the requested name is invalid, otherwise `200 OK`; the body is the rendered page of that name |
| `Blog.EmptyQueryServesDefault` | blog.py:102-108 | the empty query asks for `Hello world`, which is valid, so it gets `200 OK` |
| `Blog.ValidMissingArticle` | blog.py:47-51 | a valid name without a file is answered `200 OK`, and its article body is the 404 body |
| `Blog.InvalidRequestPage` | blog.py:83-90 | for an invalid name the page has the 404 body, marks no menu item current and still uses the raw name as title |
| `Strings.ReplaceAll` | blog.py:33-34 | `str.replace` as a left-to-right scan: each leftmost non-overlapping occurrence becomes the value, which is not scanned again; replacing a token by itself changes nothing |
| `Strings.Replace` | blog.py:73 | the scanning loop computes `ReplaceAll` |
| `Strings.ReplaceAllWithoutToken` | blog.py:73 | text in which the token does not occur is returned unchanged |
| `Strings.ReplaceAllPlainPrefix` | blog.py:33 | text free of the token's first character is copied through, and replacement continues after it |
| `Strings.ReplaceAllSplice` | blog.py:33 | a token after token-free text becomes the value, and the value is not scanned again |
| `Strings.ReplaceAllIsJoinSplit` | blog.py:73 | replacement equals joining the pieces of `Split` with the value; by `JoinSplitRoundTrip` and `SplitPiecesFree` those pieces rejoin to the text with the token and contain no token, for tokens of any length |
| `Strings.JoinSplitRoundTrip` | blog.py:73 | joining the pieces of a split with the separator gives back the text, for separators of any length |
| `Strings.SplitPiecesFree` | blog.py:73 | no piece of a split contains the separator |
| `Strings.Join` | blog.py:35 | `'\n'.join(items)`: the first item is a prefix of the result, and the result's length is the items' total length plus one separator between each two items |
| `Strings.SplitJoin` | blog.py:35 | splitting on a one-character separator undoes the join when no piece contains it |
| `Sorting.Sort` | blog.py:26 | the sorted listing is a permutation of the listing |
| `Sorting.SortSorted` | blog.py:26 | the sorted listing is ordered by Python's string `<=` |
| `Sorting.SortedUnique` | blog.py:26 | any sorted permutation of the listing equals `Sort`'s result |
| `Sorting.LexLeTotal` | blog.py:26 | any two strings are comparable |
| `Sorting.LexLeTransitive` | blog.py:26 | string `<=` is transitive |
| `Sorting.ByLengthDesc` | blog.py:70-72 | the ordered keys are a permutation of the dictionary's keys |
| `Sorting.ByLengthDescLongestFirst` | blog.py:70-72 | key lengths never increase along the ordered keys |

## Left out

- Markdown conversion (blog.py:53) is a parameter `markdown: string -> string`. The converter is a foreign library.
- File and directory access (blog.py:26, 49-52, 85) is replaced by inputs: the listing, the map of regular files and the page template text. `path.join` is not modelled; `ValidArticleIsPlainFileName` shows that a valid name stays inside the directory.
- `chdir` (blog.py:100) changes global process state and is not modelled.
- The WSGI plumbing (blog.py:111-114) is not modelled: response headers, `Content-Length`, `start_response` and UTF-8 encoding of the body.
- Percent-decoding with `urllib.parse.unquote` (blog.py:102) is a library call. The model takes the decoded query.
- The `__main__` entry point (blog.py:122-127) reads argv and prints. It is not modelled.
- `\w` and `\s` are approximated by their ASCII members: `[A-Za-z0-9_]` and the ASCII characters for which `str.isspace` holds. Python also accepts non-ASCII letters, digits and spaces.
- The `$` anchor of `^[\w\s]+$` also matches before a final newline. This changes nothing here, because `\s` already matches a newline.
- `Strings.ReplaceAll` requires a non-empty token. blog.py replaces only its constant tokens, so Python's empty-pattern replacement is not modelled.
- `Strings.SplitJoin` is stated for a one-character separator only. That is the only separator blog.py joins with (`"\n"`).
- ByLengthDesc: does not state that keys of equal length keep their order, as Python's stable sort does. The three page keys all differ in length, and `PageKeyOrder` fixes their order.
- MenuLines: holds only when no valid entry contains a newline. `\s` lets such a name through, and its item would then span two lines.
