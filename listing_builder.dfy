/** The listing builder of index.js (`getPageHTML`): it classifies the
    entry names of one directory with a `stat` oracle, sorts the two groups
    and renders the HTML page that lists them, with no escaping of any
    interpolated value. */
module ListingBuilder {
  import opened SortOrder

  /** The error object a failed filesystem call throws. */
  datatype Failure = Failure(code: string)

  /** What `stat` of `node:fs/promises` settles to. */
  datatype StatResult = Stat(isDirectory: bool) | StatFailed(error: Failure)

  // ---------------------------------------------------------------------
  // Classification (index.js:50-65)
  // ---------------------------------------------------------------------

  /** The index of the first name whose `stat` fails, or `|names|` when
      none does: the point where the `try` around the loop is left. */
  function FirstFailure(fullPath: string, names: seq<string>, stat: string -> StatResult): (k: nat)
    ensures k <= |names|
    ensures forall i :: 0 <= i < k ==> stat(fullPath + names[i]).Stat?
    ensures k < |names| ==> stat(fullPath + names[k]).StatFailed?
    decreases |names|
  {
    if names == [] || stat(fullPath + names[0]).StatFailed? then 0
    else
      var k := 1 + FirstFailure(fullPath, names[1..], stat);
      assert forall i :: 1 <= i < |names| ==> names[i] == names[1..][i - 1];
      k
  }

  /** The names of `names`, in their order, whose `stat` succeeds with
      `isDirectory() == wantDir`. */
  function Select(fullPath: string, names: seq<string>, stat: string -> StatResult, wantDir: bool): (r: seq<string>)
    ensures |r| <= |names|
    ensures forall x :: x in r ==> x in names && stat(fullPath + x) == Stat(wantDir)
    decreases |names|
  {
    if names == [] then []
    else
      var init := names[..|names| - 1];
      var last := names[|names| - 1];
      assert forall x :: x in init ==> x in names;
      Select(fullPath, init, stat, wantDir) + (if stat(fullPath + last) == Stat(wantDir) then [last] else [])
  }

  /** The `for` loop inside the `try`: each name is stat-ed in turn and
      pushed onto `dirs` or `files`; the first failing `stat` leaves the
      loop, and the later names are never looked at. */
  method ClassifyEntries(fullPath: string, fileNames: seq<string>, stat: string -> StatResult)
    returns (dirs: seq<string>, files: seq<string>)
    ensures var k := FirstFailure(fullPath, fileNames, stat);
      dirs == Select(fullPath, fileNames[..k], stat, true) &&
      files == Select(fullPath, fileNames[..k], stat, false)
  {
    dirs, files := [], [];
    var i := 0;
    while i < |fileNames|
      invariant 0 <= i <= |fileNames|
      invariant forall j :: 0 <= j < i ==> stat(fullPath + fileNames[j]).Stat?
      invariant dirs == Select(fullPath, fileNames[..i], stat, true)
      invariant files == Select(fullPath, fileNames[..i], stat, false)
    {
      var f := fileNames[i];
      assert fileNames[..i + 1][..i] == fileNames[..i];
      match stat(fullPath + f)
      case StatFailed(_) =>
        break;
      case Stat(isDir) =>
        if isDir {
          dirs := dirs + [f];
        } else {
          files := files + [f];
        }
        i := i + 1;
    }
    assert i == FirstFailure(fullPath, fileNames, stat);
  }

  /** How many times `x` occurs in `Select(...)`: its count in `names` when
      its `stat` matches, none otherwise. */
  lemma {:induction false} SelectCount(fullPath: string, names: seq<string>, stat: string -> StatResult, wantDir: bool, x: string)
    ensures multiset(Select(fullPath, names, stat, wantDir))[x] ==
      if stat(fullPath + x) == Stat(wantDir) then multiset(names)[x] else 0
    decreases |names|
  {
    if names != [] {
      var init := names[..|names| - 1];
      assert names == init + [names[|names| - 1]];
      SelectCount(fullPath, init, stat, wantDir, x);
    }
  }

  /** When no `stat` fails, every name lands in exactly one group. */
  lemma SelectPartition(fullPath: string, names: seq<string>, stat: string -> StatResult)
    requires forall i :: 0 <= i < |names| ==> stat(fullPath + names[i]).Stat?
    ensures multiset(Select(fullPath, names, stat, true)) + multiset(Select(fullPath, names, stat, false)) ==
      multiset(names)
  {
    var d := Select(fullPath, names, stat, true);
    var f := Select(fullPath, names, stat, false);
    forall x
      ensures (multiset(d) + multiset(f))[x] == multiset(names)[x]
    {
      SelectCount(fullPath, names, stat, true, x);
      SelectCount(fullPath, names, stat, false, x);
      if x in names {
        var i :| 0 <= i < |names| && names[i] == x;
        assert stat(fullPath + names[i]).Stat?;
      }
    }
  }

  /** Classification stops at the first failure: the two groups hold
      exactly the names before it, each one in the group its `stat`
      reports, no name in both, and (for the distinct names `readdir`
      gives) nothing at or after the failing name. */
  lemma ClassificationStopsAtFirstFailure(fullPath: string, fileNames: seq<string>, stat: string -> StatResult)
    ensures var k := FirstFailure(fullPath, fileNames, stat);
      var dirs := Select(fullPath, fileNames[..k], stat, true);
      var files := Select(fullPath, fileNames[..k], stat, false);
      && multiset(dirs) + multiset(files) == multiset(fileNames[..k])
      && (forall x :: x in dirs ==> stat(fullPath + x) == Stat(true))
      && (forall x :: x in files ==> stat(fullPath + x) == Stat(false))
      && (forall x :: !(x in dirs && x in files))
      && ((forall i, j :: 0 <= i < j < |fileNames| ==> fileNames[i] != fileNames[j]) ==>
            forall j :: k <= j < |fileNames| ==> fileNames[j] !in dirs && fileNames[j] !in files)
  {
    var k := FirstFailure(fullPath, fileNames, stat);
    var pre := fileNames[..k];
    SelectPartition(fullPath, pre, stat);
    if forall i, j :: 0 <= i < j < |fileNames| ==> fileNames[i] != fileNames[j] {
      forall j | k <= j < |fileNames|
        ensures fileNames[j] !in Select(fullPath, pre, stat, true)
        ensures fileNames[j] !in Select(fullPath, pre, stat, false)
      {
      }
    }
  }

  /** When no `stat` fails, the groups together are a permutation of the
      names `readdir` gave. */
  lemma NoFailureKeepsEveryName(fullPath: string, fileNames: seq<string>, stat: string -> StatResult)
    requires forall i :: 0 <= i < |fileNames| ==> stat(fullPath + fileNames[i]).Stat?
    ensures FirstFailure(fullPath, fileNames, stat) == |fileNames|
    ensures multiset(Select(fullPath, fileNames, stat, true)) + multiset(Select(fullPath, fileNames, stat, false)) ==
      multiset(fileNames)
  {
    SelectPartition(fullPath, fileNames, stat);
  }

  /** The first name's failure empties the listing, however many names
      follow: one unreadable entry can deny the listing of all others. */
  lemma FailureOfFirstDropsAll(fullPath: string, fileNames: seq<string>, stat: string -> StatResult)
    requires |fileNames| > 0 && stat(fullPath + fileNames[0]).StatFailed?
    ensures var k := FirstFailure(fullPath, fileNames, stat);
      Select(fullPath, fileNames[..k], stat, true) == [] &&
      Select(fullPath, fileNames[..k], stat, false) == []
  {
  }

  // ---------------------------------------------------------------------
  // One trailing separator (index.js:67, index.js:163)
  // ---------------------------------------------------------------------

  predicate EndsWithSlash(s: string) {
    |s| > 0 && s[|s| - 1] == '/'
  }

  /** `s.endsWith("/") ? s : s + "/"`. */
  function WithTrailingSlash(s: string): (r: string)
    ensures EndsWithSlash(r)
    ensures |s| <= |r| <= |s| + 1 && r[..|s|] == s
  {
    if EndsWithSlash(s) then s else s + "/"
  }

  /** The separator is added only when it is missing: the result is the
      shortest extension of `s` that ends with `/`. */
  lemma WithTrailingSlashIsShortest(s: string, t: string)
    requires |s| <= |t| && t[..|s|] == s && EndsWithSlash(t)
    ensures |WithTrailingSlash(s)| <= |t|
  {
    if |s| == |t| {
      assert s == t;
    }
  }

  lemma WithTrailingSlashIdempotent(s: string)
    ensures WithTrailingSlash(WithTrailingSlash(s)) == WithTrailingSlash(s)
  {
  }

  // ---------------------------------------------------------------------
  // Items of the list (index.js:68-82)
  // ---------------------------------------------------------------------

  datatype EntryKind = Folder | File

  /** One `<li>` of the page: the parent link, or the link to one entry. */
  datatype Item = ParentLink(href: string) | EntryLink(kind: EntryKind, href: string, name: string)

  const ParentLabel: string := "Parent Directory"

  /** The visible text of an item after its icon. */
  function Label(item: Item): string {
    match item
    case ParentLink(_) => ParentLabel
    case EntryLink(Folder, _, name) => name + "/"
    case EntryLink(File, _, name) => name
  }

  /** One entry item per name, in the order of `names`. */
  function EntryItems(prefix: string, names: seq<string>, kind: EntryKind): (items: seq<Item>)
    ensures |items| == |names|
    ensures forall i :: 0 <= i < |names| ==> items[i] == EntryLink(kind, prefix + names[i], names[i])
    decreases |names|
  {
    if names == [] then []
    else
      var init := names[..|names| - 1];
      assert forall i :: 0 <= i < |init| ==> names[i] == init[i];
      EntryItems(prefix, init, kind) + [EntryLink(kind, prefix + names[|names| - 1], names[|names| - 1])]
  }

  /** The items `getPageHTML` renders: the parent link, then the sorted
      directories, then the sorted files. */
  function ListingItems(originalUrl: string, parentHref: string, dirs: seq<string>, files: seq<string>): seq<Item> {
    var prefix := WithTrailingSlash(originalUrl);
    [ParentLink(parentHref)] + EntryItems(prefix, SortNames(dirs), Folder) + EntryItems(prefix, SortNames(files), File)
  }

  /** The rendered list has one item for the parent, one per directory and
      one per file, in that order; each group is its names in ascending
      code-unit order, and each entry's href is the child-link prefix
      followed by its name. */
  lemma ListingItemsLayout(originalUrl: string, parentHref: string, dirs: seq<string>, files: seq<string>)
    ensures var items := ListingItems(originalUrl, parentHref, dirs, files);
      var prefix := WithTrailingSlash(originalUrl);
      var sd := SortNames(dirs);
      var sf := SortNames(files);
      && Sorted(sd) && multiset(sd) == multiset(dirs)
      && Sorted(sf) && multiset(sf) == multiset(files)
      && |items| == 1 + |sd| + |sf| == 1 + |dirs| + |files|
      && items[0] == ParentLink(parentHref)
      && (forall i :: 0 <= i < |sd| ==> items[1 + i] == EntryLink(Folder, prefix + sd[i], sd[i]))
      && (forall i :: 0 <= i < |sf| ==> items[1 + |sd| + i] == EntryLink(File, prefix + sf[i], sf[i]))
  {
    GroupsLayout(parentHref, WithTrailingSlash(originalUrl), SortNames(dirs), SortNames(files));
  }

  lemma GroupsLayout(parentHref: string, prefix: string, sd: seq<string>, sf: seq<string>)
    ensures var items := [ParentLink(parentHref)] + EntryItems(prefix, sd, Folder) + EntryItems(prefix, sf, File);
      && |items| == 1 + |sd| + |sf|
      && items[0] == ParentLink(parentHref)
      && (forall i :: 0 <= i < |sd| ==> items[1 + i] == EntryLink(Folder, prefix + sd[i], sd[i]))
      && (forall i :: 0 <= i < |sf| ==> items[1 + |sd| + i] == EntryLink(File, prefix + sf[i], sf[i]))
  {
    var a := EntryItems(prefix, sd, Folder);
    var b := EntryItems(prefix, sf, File);
    var items := [ParentLink(parentHref)] + a + b;
    forall i | 0 <= i < |sd|
      ensures items[1 + i] == EntryLink(Folder, prefix + sd[i], sd[i])
    {
      assert items[1 + i] == a[i];
    }
    forall i | 0 <= i < |sf|
      ensures items[1 + |sd| + i] == EntryLink(File, prefix + sf[i], sf[i])
    {
      assert items[1 + |sd| + i] == b[i];
    }
  }

  // ---------------------------------------------------------------------
  // Rendering (index.js:68-82, index.js:84-144)
  // ---------------------------------------------------------------------

  /** Stand-ins for the three SVG icons (index.js:9-47) and the inline
      stylesheet (index.js:91-135): decorative constants that no property
      depends on. */
  const FileIcon: string := "<svg data-icon=\"file\"></svg>"
  const FolderIcon: string := "<svg data-icon=\"folder\"></svg>"
  const ArrowUpIcon: string := "<svg data-icon=\"arrow-up\"></svg>"
  const StyleSheet: string := "\n          body { margin: 0; padding: 30px; }\n        "

  function Icon(kind: EntryKind): string {
    match kind
    case Folder => FolderIcon
    case File => FileIcon
  }

  /** The fixed text of the item templates (index.js:68-72, 74-76, 79-81). */
  const ParentOpen: string := "\n    <li>\n      <a href=\""
  const ParentClose: string := "</a>\n    </li>\n  "
  const EntryOpen: string := "\n      <li><a href=\""
  const EntryClose: string := "</a></li>\n    "
  const HrefEnd: string := "\">"

  /** The markup of one item, whitespace included, as the `html` tagged
      templates produce it. */
  function RenderItem(item: Item): string {
    match item
    case ParentLink(href) => ParentOpen + href + (HrefEnd + ArrowUpIcon + Label(item) + ParentClose)
    case EntryLink(kind, href, _) => EntryOpen + href + (HrefEnd + Icon(kind) + Label(item) + EntryClose)
  }

  /** What `reduce((prev, x) => prev += render(x), "")` builds over `xs`:
      the renderings of the elements, left to right. */
  function Concat<T>(render: T -> string, xs: seq<T>): string
    decreases |xs|
  {
    if xs == [] then ""
    else Concat(render, xs[..|xs| - 1]) + render(xs[|xs| - 1])
  }

  lemma {:induction false} ConcatAppend<T>(render: T -> string, a: seq<T>, b: seq<T>)
    ensures Concat(render, a + b) == Concat(render, a) + Concat(render, b)
    decreases |b|
  {
    if b == [] {
      assert a + b == a;
    } else {
      var init := b[..|b| - 1];
      assert (a + b)[..|a + b| - 1] == a + init;
      var last := b[|b| - 1];
      assert (a + b)[|a + b| - 1] == last;
      ConcatAppend(render, a, init);
      calc {
        Concat(render, a + b);
        Concat(render, a + init) + render(last);
        (Concat(render, a) + Concat(render, init)) + render(last);
        Concat(render, a) + (Concat(render, init) + render(last));
        Concat(render, a) + Concat(render, b);
      }
    }
  }

  lemma ConcatHeadAndGroups<T>(render: T -> string, x: T, a: seq<T>, b: seq<T>)
    ensures Concat(render, [x] + a + b) == render(x) + Concat(render, a) + Concat(render, b)
  {
    ConcatAppend(render, [x] + a, b);
    ConcatAppend(render, [x], a);
    assert [x][..0] == [];
    assert Concat(render, [x]) == "" + render(x);
    assert "" + render(x) == render(x);
  }

  lemma ConcatCons<T>(render: T -> string, x: T, a: seq<T>)
    ensures Concat(render, [x] + a) == render(x) + Concat(render, a)
  {
    ConcatAppend(render, [x], a);
    assert [x][..0] == [];
    assert Concat(render, [x]) == "" + render(x);
    assert "" + render(x) == render(x);
  }

  function RenderItems(items: seq<Item>): string {
    Concat(RenderItem, items)
  }

  /** The accumulator loop of one `reduce` (index.js:73-77, 78-82). */
  method RenderEntries(prefix: string, names: seq<string>, kind: EntryKind) returns (acc: string)
    ensures acc == RenderItems(EntryItems(prefix, names, kind))
  {
    acc := "";
    for i := 0 to |names|
      invariant acc == RenderItems(EntryItems(prefix, names[..i], kind))
    {
      var items := EntryItems(prefix, names[..i + 1], kind);
      assert names[..i + 1][..i] == names[..i];
      assert items[..i] == EntryItems(prefix, names[..i], kind);
      assert items[i] == EntryLink(kind, prefix + names[i], names[i]);
      acc := acc + RenderItem(EntryLink(kind, prefix + names[i], names[i]));
    }
    assert names[..|names|] == names;
  }

  datatype Page = Page(title: string, heading: string, items: seq<Item>)

  /** The fixed text of the page template (index.js:84-144), between the
      interpolated title, heading and list. */
  const PageHead: string :=
    "\n    <!DOCTYPE html>\n    <html lang=\"en\">\n      <head>\n        <meta charset=\"UTF-8\" />\n" +
    "        <meta name=\"viewport\" content=\"width=device-width, initial-scale=1.0\" />\n" +
    "        <title>"
  const TitleToHeading: string :=
    "</title>\n        <style>" + StyleSheet + "</style>\n      </head>\n      <body>\n        <h1>"
  const HeadingToList: string := "</h1>\n        <ul>\n          "
  const PageTail: string := "\n        </ul>\n      </body>\n    </html>\n  "

  /** The page template around an already rendered list. */
  function Document(title: string, heading: string, list: string): string {
    PageHead + title + TitleToHeading + heading + HeadingToList + list + PageTail
  }

  function RenderPage(p: Page): string {
    Document(p.title, p.heading, RenderItems(p.items))
  }

  /** The page for a directory whose groups are `dirs` and `files`: title
      and heading both "Index of " followed by the request path. */
  function BuildPage(originalUrl: string, parentHref: string, dirs: seq<string>, files: seq<string>): Page {
    Page("Index of " + originalUrl, "Index of " + originalUrl, ListingItems(originalUrl, parentHref, dirs, files))
  }

  /** What `getPageHTML(originalUrl, fullPath, fileNames)` resolves to;
      `dirname` is `path.dirname`. */
  function PageHTML(originalUrl: string, fullPath: string, fileNames: seq<string>,
                    stat: string -> StatResult, dirname: string -> string): string
  {
    var k := FirstFailure(fullPath, fileNames, stat);
    RenderPage(BuildPage(originalUrl, dirname(originalUrl),
      Select(fullPath, fileNames[..k], stat, true), Select(fullPath, fileNames[..k], stat, false)))
  }

  /** The list markup is the parent link's followed by the two groups'. */
  lemma ListingRendersInParts(originalUrl: string, parentHref: string, dirs: seq<string>, files: seq<string>)
    ensures var prefix := WithTrailingSlash(originalUrl);
      RenderItems(ListingItems(originalUrl, parentHref, dirs, files)) ==
        RenderItem(ParentLink(parentHref)) +
        RenderItems(EntryItems(prefix, SortNames(dirs), Folder)) +
        RenderItems(EntryItems(prefix, SortNames(files), File))
  {
    var prefix := WithTrailingSlash(originalUrl);
    ConcatHeadAndGroups(RenderItem, ParentLink(parentHref),
      EntryItems(prefix, SortNames(dirs), Folder), EntryItems(prefix, SortNames(files), File));
  }

  /** `getPageHTML` step by step: classify, build the child-link prefix and
      the parent link, sort and render each group, fill the template. */
  method GetPageHTML(originalUrl: string, fullPath: string, fileNames: seq<string>,
                     stat: string -> StatResult, dirname: string -> string)
    returns (html: string)
    ensures html == PageHTML(originalUrl, fullPath, fileNames, stat, dirname)
  {
    var dirs, files := ClassifyEntries(fullPath, fileNames, stat);
    ListingRendersInParts(originalUrl, dirname(originalUrl), dirs, files);
    var dirPrefix := WithTrailingSlash(originalUrl);
    var parentDirLink := RenderItem(ParentLink(dirname(originalUrl)));
    dirs := SortNames(dirs);
    var dirList := RenderEntries(dirPrefix, dirs, Folder);
    files := SortNames(files);
    var fileList := RenderEntries(dirPrefix, files, File);
    html := Document("Index of " + originalUrl, "Index of " + originalUrl, parentDirLink + dirList + fileList);
  }

  /** An empty directory is listed with the parent link alone. */
  lemma EmptyDirectoryListsOnlyParent(originalUrl: string, fullPath: string, stat: string -> StatResult,
                                      dirname: string -> string)
    ensures PageHTML(originalUrl, fullPath, [], stat, dirname) ==
      Document("Index of " + originalUrl, "Index of " + originalUrl, RenderItem(ParentLink(dirname(originalUrl))))
  {
    var parent := ParentLink(dirname(originalUrl));
    assert FirstFailure(fullPath, [], stat) == 0;
    assert Select(fullPath, [], stat, true) == [] && Select(fullPath, [], stat, false) == [];
    assert ListingItems(originalUrl, dirname(originalUrl), [], []) == [parent] + [] + [];
    ConcatHeadAndGroups(RenderItem, parent, [], []);
    assert RenderItems([parent] + [] + []) == RenderItem(parent) + "" + "";
  }

  /** Permuting the names permutes each group. */
  lemma SelectPermutation(fullPath: string, a: seq<string>, b: seq<string>, stat: string -> StatResult, wantDir: bool)
    requires multiset(a) == multiset(b)
    ensures multiset(Select(fullPath, a, stat, wantDir)) == multiset(Select(fullPath, b, stat, wantDir))
  {
    forall x
      ensures multiset(Select(fullPath, a, stat, wantDir))[x] == multiset(Select(fullPath, b, stat, wantDir))[x]
    {
      SelectCount(fullPath, a, stat, wantDir, x);
      SelectCount(fullPath, b, stat, wantDir, x);
    }
  }

  lemma NoFailureUnderPermutation(fullPath: string, a: seq<string>, b: seq<string>, stat: string -> StatResult)
    requires multiset(a) == multiset(b)
    requires forall i :: 0 <= i < |a| ==> stat(fullPath + a[i]).Stat?
    ensures forall i :: 0 <= i < |b| ==> stat(fullPath + b[i]).Stat?
  {
    forall i | 0 <= i < |b|
      ensures stat(fullPath + b[i]).Stat?
    {
      assert b[i] in multiset(a);
      var j :| 0 <= j < |a| && a[j] == b[i];
    }
  }

  /** When no `stat` fails, which names land in a group, and so the sorted
      group, does not depend on the order of the names. */
  lemma GroupIndependentOfEntryOrder(fullPath: string, a: seq<string>, b: seq<string>,
                                     stat: string -> StatResult, wantDir: bool)
    requires multiset(a) == multiset(b)
    requires forall i :: 0 <= i < |a| ==> stat(fullPath + a[i]).Stat?
    ensures var ka := FirstFailure(fullPath, a, stat);
      var kb := FirstFailure(fullPath, b, stat);
      SortNames(Select(fullPath, a[..ka], stat, wantDir)) == SortNames(Select(fullPath, b[..kb], stat, wantDir))
  {
    NoFailureUnderPermutation(fullPath, a, b, stat);
    var ka := FirstFailure(fullPath, a, stat);
    var kb := FirstFailure(fullPath, b, stat);
    assert ka == |a| && kb == |b|;
    assert a[..ka] == a && b[..kb] == b;
    var sa := Select(fullPath, a, stat, wantDir);
    var sb := Select(fullPath, b, stat, wantDir);
    SelectPermutation(fullPath, a, b, stat, wantDir);
    SortDependsOnlyOnMultiset(sa, sb);
  }

  /** When no `stat` fails, the page does not depend on the order in which
      `readdir` gave the names. */
  lemma PageIndependentOfEntryOrder(originalUrl: string, fullPath: string, a: seq<string>, b: seq<string>,
                                    stat: string -> StatResult, dirname: string -> string)
    requires multiset(a) == multiset(b)
    requires forall i :: 0 <= i < |a| ==> stat(fullPath + a[i]).Stat?
    ensures PageHTML(originalUrl, fullPath, a, stat, dirname) == PageHTML(originalUrl, fullPath, b, stat, dirname)
  {
    var ka := FirstFailure(fullPath, a, stat);
    var kb := FirstFailure(fullPath, b, stat);
    GroupIndependentOfEntryOrder(fullPath, a, b, stat, true);
    GroupIndependentOfEntryOrder(fullPath, a, b, stat, false);
    var parentHref := dirname(originalUrl);
    assert ListingItems(originalUrl, parentHref, Select(fullPath, a[..ka], stat, true), Select(fullPath, a[..ka], stat, false))
        == ListingItems(originalUrl, parentHref, Select(fullPath, b[..kb], stat, true), Select(fullPath, b[..kb], stat, false));
  }
}
