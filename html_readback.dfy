/** Reading a rendered listing back. The page is markup built by plain
    string interpolation, with no escaping; these functions read the title,
    the heading and every list item back out of it, which succeeds when no
    interpolated value contains the character that ends its field (`"` for
    an href, `<` for a text). */
module HtmlReadback {
  import opened Optional
  import opened SortOrder
  import opened ListingBuilder

  // ---------------------------------------------------------------------
  // Fields of a string
  // ---------------------------------------------------------------------

  /** The longest prefix of `s` that does not contain `c`: it ends at the
      first `c`, or at the end of `s`. */
  function TakeUntil(s: string, c: char): (r: string)
    ensures |r| <= |s| && r == s[..|r|]
    ensures c !in r
    ensures |r| < |s| ==> s[|r|] == c
    ensures forall j :: 0 <= j < |s| && s[j] == c ==> |r| <= j
    decreases |s|
  {
    if s == [] || s[0] == c then []
    else
      var r := [s[0]] + TakeUntil(s[1..], c);
      assert r[1..] == TakeUntil(s[1..], c);
      assert forall j :: 1 <= j < |s| ==> s[j] == s[1..][j - 1];
      r
  }

  lemma TakeUntilStopsAtDelimiter(a: string, b: string, c: char)
    requires c !in a && |b| > 0 && b[0] == c
    ensures TakeUntil(a + b, c) == a
  {
    var r := TakeUntil(a + b, c);
    assert r == (a + b)[..|a|] == a;
  }

  predicate StartsWith(s: string, p: string) {
    |p| <= |s| && s[..|p|] == p
  }

  predicate EndsWith(s: string, p: string) {
    |p| <= |s| && s[|s| - |p|..] == p
  }

  lemma StartsWithPrefix(p: string, x: string)
    ensures StartsWith(p + x, p) && (p + x)[|p|..] == x
  {
    assert (p + x)[..|p|] == p;
  }

  lemma DiffersAt(s: string, p: string, i: nat)
    requires i < |p| && i < |s| && s[i] != p[i]
    ensures !StartsWith(s, p)
  {
    if |p| <= |s| {
      assert s[..|p|][i] == s[i];
    }
  }

  /** After an opening text, the field up to the first `c`, and the rest of
      the string from that `c` on. */
  function Field(s: string, open: string, c: char): (string, string)
    requires StartsWith(s, open)
  {
    var f := TakeUntil(s[|open|..], c);
    (f, s[|open|..][|f|..])
  }

  lemma FieldOf(open: string, field: string, tail: string, c: char)
    requires c !in field && |tail| > 0 && tail[0] == c
    ensures StartsWith(open + field + tail, open)
    ensures Field(open + field + tail, open, c) == (field, tail)
  {
    var s := open + field + tail;
    assert s == open + (field + tail);
    StartsWithPrefix(open, field + tail);
    TakeUntilStopsAtDelimiter(field, tail, c);
    StartsWithPrefix(field, tail);
  }

  // ---------------------------------------------------------------------
  // Reading items and pages
  // ---------------------------------------------------------------------

  /** An item whose href holds no `"` and whose name holds no `<`. */
  predicate Readable(item: Item) {
    '"' !in item.href && (item.EntryLink? ==> '<' !in item.name)
  }

  predicate AllReadable(items: seq<Item>) {
    forall i :: 0 <= i < |items| ==> Readable(items[i])
  }

  /** Reads the icon, the label and the closing tags of an entry item, from
      the quote that ends its href on. */
  function ReadEntryTail(href: string, tail: string): (r: Option<(Item, string)>)
    ensures r.Some? ==> |r.value.1| < |tail|
  {
    var kind := if StartsWith(tail, HrefEnd + FolderIcon) then Some(Folder)
                else if StartsWith(tail, HrefEnd + FileIcon) then Some(File)
                else None;
    if kind.None? then None
    else
      var (text, rest) := Field(tail, HrefEnd + Icon(kind.value), '<');
      if !StartsWith(rest, EntryClose) then None
      else if kind.value == File then Some((EntryLink(File, href, text), rest[|EntryClose|..]))
      else if |text| > 0 && text[|text| - 1] == '/' then
        Some((EntryLink(Folder, href, text[..|text| - 1]), rest[|EntryClose|..]))
      else None
  }

  /** Reads one item off the front of `s`: the item and what follows it. */
  function ReadItem(s: string): (r: Option<(Item, string)>)
    ensures r.Some? ==> |r.value.1| < |s|
  {
    if StartsWith(s, ParentOpen) then
      var (href, tail) := Field(s, ParentOpen, '"');
      var close := HrefEnd + ArrowUpIcon + ParentLabel + ParentClose;
      if StartsWith(tail, close) then Some((ParentLink(href), tail[|close|..])) else None
    else if StartsWith(s, EntryOpen) then
      var (href, tail) := Field(s, EntryOpen, '"');
      ReadEntryTail(href, tail)
    else None
  }

  /** Reads items off `s` until it is used up. */
  function ReadItems(s: string): Option<seq<Item>>
    decreases |s|
  {
    if s == [] then Some([])
    else
      match ReadItem(s)
      case None => None
      case Some((item, rest)) =>
        match ReadItems(rest)
        case None => None
        case Some(items) => Some([item] + items)
  }

  /** Reads the title, the heading and the list items out of a page. */
  function ReadPage(html: string): Option<Page> {
    if !StartsWith(html, PageHead) then None
    else
      var (title, r2) := Field(html, PageHead, '<');
      if !StartsWith(r2, TitleToHeading) then None
      else
        var (heading, r4) := Field(r2, TitleToHeading, '<');
        if !StartsWith(r4, HeadingToList) then None
        else
          var r5 := r4[|HeadingToList|..];
          if !EndsWith(r5, PageTail) then None
          else
            match ReadItems(r5[..|r5| - |PageTail|])
            case None => None
            case Some(items) => Some(Page(title, heading, items))
  }

  // ---------------------------------------------------------------------
  // Round trips
  // ---------------------------------------------------------------------

  /** The file icon is told apart from the folder icon. */
  lemma FileIsNotFolder(s: string)
    requires StartsWith(s, HrefEnd + FileIcon)
    ensures !StartsWith(s, HrefEnd + FolderIcon)
  {
    var f := HrefEnd + FileIcon;
    assert s[19] == s[..|f|][19] == f[19] == 'i';
    assert (HrefEnd + FolderIcon)[19] == 'o';
    DiffersAt(s, HrefEnd + FolderIcon, 19);
  }

  /** An entry item is told apart from the parent item. */
  lemma EntryIsNotParent(s: string)
    requires StartsWith(s, EntryOpen)
    ensures !StartsWith(s, ParentOpen)
  {
    assert s[5] == s[..|EntryOpen|][5] == EntryOpen[5] == ' ';
    assert ParentOpen[5] == '<';
    DiffersAt(s, ParentOpen, 5);
  }

  lemma ReadEntryTailRoundTrip(kind: EntryKind, href: string, name: string, rest: string)
    requires '<' !in name
    ensures ReadEntryTail(href, HrefEnd + Icon(kind) + Label(EntryLink(kind, href, name)) + EntryClose + rest) ==
      Some((EntryLink(kind, href, name), rest))
  {
    var text := Label(EntryLink(kind, href, name));
    var head := HrefEnd + Icon(kind);
    assert head + text + EntryClose + rest == head + text + (EntryClose + rest);
    assert EntryClose[0] == '<';
    FieldOf(head, text, EntryClose + rest, '<');
    StartsWithPrefix(EntryClose, rest);
    if kind == File {
      FileIsNotFolder(head + text + EntryClose + rest);
    } else {
      assert text[..|text| - 1] == name;
    }
  }

  /** An item is read back from its own markup when its fields are readable. */
  lemma ReadItemRoundTrip(item: Item, rest: string)
    requires Readable(item)
    ensures ReadItem(RenderItem(item) + rest) == Some((item, rest))
  {
    match item
    case ParentLink(href) =>
      var close := HrefEnd + ArrowUpIcon + ParentLabel + ParentClose;
      assert ParentOpen + href + close + rest == ParentOpen + href + (close + rest);
      assert (close + rest)[0] == HrefEnd[0] == '"';
      FieldOf(ParentOpen, href, close + rest, '"');
      StartsWithPrefix(close, rest);
    case EntryLink(kind, href, name) =>
      var close := HrefEnd + Icon(kind) + Label(item) + EntryClose;
      var s := EntryOpen + href + close + rest;
      assert s == EntryOpen + href + (close + rest);
      assert (close + rest)[0] == HrefEnd[0] == '"';
      FieldOf(EntryOpen, href, close + rest, '"');
      EntryIsNotParent(s);
      ReadEntryTailRoundTrip(kind, href, name, rest);
  }

  /** Reading a list takes one item off the front, then reads the rest. */
  lemma ReadItemsStep(s: string, item: Item, rest: string)
    requires ReadItem(s) == Some((item, rest))
    ensures ReadItems(s) == match ReadItems(rest)
      case None => None
      case Some(items) => Some([item] + items)
  {
  }

  /** A rendered list reads back as the items it was rendered from. */
  lemma {:induction false} ReadItemsRoundTrip(items: seq<Item>)
    requires AllReadable(items)
    ensures ReadItems(RenderItems(items)) == Some(items)
    decreases |items|
  {
    if items != [] {
      var rest := items[1..];
      assert items == [items[0]] + rest;
      ConcatCons(RenderItem, items[0], rest);
      ReadItemRoundTrip(items[0], RenderItems(rest));
      ReadItemsStep(RenderItems(items), items[0], RenderItems(rest));
      ReadItemsRoundTrip(rest);
    }
  }

  lemma EndsWithSuffix(x: string, q: string)
    ensures EndsWith(x + q, q) && (x + q)[..|x + q| - |q|] == x
  {
    assert (x + q)[|x + q| - |q|..] == q;
  }

  /** The page template split at its interpolated fields: the text after
      the title and the text after the heading both open with a tag. */
  lemma DocumentFields(title: string, heading: string, list: string)
    ensures var afterHeading := HeadingToList + list + PageTail;
      var afterTitle := TitleToHeading + heading + afterHeading;
      && Document(title, heading, list) == PageHead + title + afterTitle
      && afterTitle[0] == '<' && afterHeading[0] == '<'
      && afterHeading == HeadingToList + (list + PageTail)
  {
    RegroupAtFields(PageHead, title, TitleToHeading, heading, HeadingToList, list, PageTail);
    assert TitleToHeading[0] == '<' && HeadingToList[0] == '<';
  }

  /** A template of fixed texts `t0`..`t3` filled with the fields `f0`..`f2`,
      regrouped so that each field is followed by the rest of the page. */
  lemma RegroupAtFields(t0: string, f0: string, t1: string, f1: string, t2: string, f2: string, t3: string)
    ensures t0 + f0 + t1 + f1 + t2 + f2 + t3 == t0 + f0 + (t1 + f1 + (t2 + f2 + t3))
    ensures t2 + f2 + t3 == t2 + (f2 + t3)
  {
  }

  /** A page reads back as the title, heading and items it was rendered
      from when neither text holds `<` and every item is readable. */
  lemma ReadPageRoundTrip(p: Page)
    requires '<' !in p.title && '<' !in p.heading
    requires AllReadable(p.items)
    ensures ReadPage(RenderPage(p)) == Some(p)
  {
    var list := RenderItems(p.items);
    var r4 := HeadingToList + list + PageTail;
    var r2 := TitleToHeading + p.heading + r4;
    DocumentFields(p.title, p.heading, list);
    FieldOf(PageHead, p.title, r2, '<');
    FieldOf(TitleToHeading, p.heading, r4, '<');
    StartsWithPrefix(HeadingToList, list + PageTail);
    EndsWithSuffix(list, PageTail);
    ReadItemsRoundTrip(p.items);
  }

  /** Every listing whose request path, parent link and entry names are
      free of `<` and `"` reads back as exactly the page the classified
      groups describe: the title and the heading, the parent link, one item
      per listed directory and one per listed file. */
  lemma ListingReadsBack(originalUrl: string, fullPath: string, fileNames: seq<string>,
                         stat: string -> StatResult, dirname: string -> string)
    requires '<' !in originalUrl && '"' !in originalUrl && '"' !in dirname(originalUrl)
    requires forall i :: 0 <= i < |fileNames| ==> '<' !in fileNames[i] && '"' !in fileNames[i]
    ensures var k := FirstFailure(fullPath, fileNames, stat);
      ReadPage(PageHTML(originalUrl, fullPath, fileNames, stat, dirname)) ==
        Some(BuildPage(originalUrl, dirname(originalUrl),
          Select(fullPath, fileNames[..k], stat, true), Select(fullPath, fileNames[..k], stat, false)))
  {
    var k := FirstFailure(fullPath, fileNames, stat);
    var dirs := Select(fullPath, fileNames[..k], stat, true);
    var files := Select(fullPath, fileNames[..k], stat, false);
    var p := BuildPage(originalUrl, dirname(originalUrl), dirs, files);
    forall i | 0 <= i < |fileNames[..k]|
      ensures '<' !in fileNames[..k][i] && '"' !in fileNames[..k][i]
    {
      assert fileNames[..k][i] == fileNames[i];
    }
    ItemsReadable(originalUrl, dirname(originalUrl), fileNames[..k], dirs, files);
    TitleReadable(originalUrl);
    ReadPageRoundTrip(p);
  }

  lemma EntryItemsReadable(prefix: string, names: seq<string>, kind: EntryKind)
    requires '"' !in prefix
    requires forall i :: 0 <= i < |names| ==> '<' !in names[i] && '"' !in names[i]
    ensures AllReadable(EntryItems(prefix, names, kind))
  {
  }

  /** Sorting keeps every name among those it was drawn from. */
  lemma SortedNamesDrawnFrom(group: seq<string>, names: seq<string>)
    requires forall x :: x in group ==> x in names
    ensures forall i :: 0 <= i < |SortNames(group)| ==> SortNames(group)[i] in names
  {
    var sg := SortNames(group);
    forall i | 0 <= i < |sg|
      ensures sg[i] in names
    {
      assert sg[i] in multiset(group);
    }
  }

  lemma AllReadableJoin(x: Item, a: seq<Item>, b: seq<Item>)
    requires Readable(x) && AllReadable(a) && AllReadable(b)
    ensures AllReadable([x] + a + b)
  {
    var items := [x] + a + b;
    forall j | 1 <= j < 1 + |a|
      ensures Readable(items[j])
    {
      assert items[j] == a[j - 1];
    }
    forall j | 1 + |a| <= j < |items|
      ensures Readable(items[j])
    {
      assert items[j] == b[j - 1 - |a|];
    }
  }

  /** The title and the heading of a listing hold `<` only when its request
      path does. */
  lemma TitleReadable(originalUrl: string)
    requires '<' !in originalUrl
    ensures '<' !in "Index of " + originalUrl
  {
  }

  lemma ItemsReadable(originalUrl: string, parentHref: string, names: seq<string>, dirs: seq<string>, files: seq<string>)
    requires '"' !in originalUrl && '"' !in parentHref
    requires forall i :: 0 <= i < |names| ==> '<' !in names[i] && '"' !in names[i]
    requires forall x :: x in dirs ==> x in names
    requires forall x :: x in files ==> x in names
    ensures AllReadable(ListingItems(originalUrl, parentHref, dirs, files))
  {
    var prefix := WithTrailingSlash(originalUrl);
    assert '"' !in prefix;
    SortedNamesDrawnFrom(dirs, names);
    SortedNamesDrawnFrom(files, names);
    EntryItemsReadable(prefix, SortNames(dirs), Folder);
    EntryItemsReadable(prefix, SortNames(files), File);
    AllReadableJoin(ParentLink(parentHref), EntryItems(prefix, SortNames(dirs), Folder),
      EntryItems(prefix, SortNames(files), File));
  }

  /** Without escaping, no entry whose name holds `<` is read back as
      itself: its label is read only up to the first `<`, so the name read
      is shorter than the name rendered. */
  lemma UnescapedNameIsMisread(kind: EntryKind, href: string, name: string, rest: string)
    requires '"' !in href && '<' in name
    ensures ReadItem(RenderItem(EntryLink(kind, href, name)) + rest) != Some((EntryLink(kind, href, name), rest))
  {
    var close := HrefEnd + Icon(kind) + Label(EntryLink(kind, href, name)) + EntryClose;
    var s := EntryOpen + href + close + rest;
    assert s == EntryOpen + href + (close + rest);
    assert (close + rest)[0] == HrefEnd[0] == '"';
    FieldOf(EntryOpen, href, close + rest, '"');
    EntryIsNotParent(s);
    UnescapedLabelIsMisread(kind, href, name, rest);
  }

  lemma UnescapedLabelIsMisread(kind: EntryKind, href: string, name: string, rest: string)
    requires '<' in name
    ensures ReadEntryTail(href, HrefEnd + Icon(kind) + Label(EntryLink(kind, href, name)) + EntryClose + rest) !=
      Some((EntryLink(kind, href, name), rest))
  {
    var text := Label(EntryLink(kind, href, name));
    var head := HrefEnd + Icon(kind);
    var after := text + EntryClose + rest;
    var tail := head + text + EntryClose + rest;
    assert tail == head + after;
    StartsWithPrefix(head, after);
    if kind == File {
      FileIsNotFolder(tail);
    }
    var i :| 0 <= i < |name| && name[i] == '<';
    assert after[i] == '<';
    assert |TakeUntil(after, '<')| <= i;
  }
}
