# Directory index plugin: a Dafny model

`wds-plugin-directory-index` is a plugin for a development web server. In
its start hook it records the host's root directory. For every request its
`serve` hook does one of four things:
- it rejects when `rootDir` is undefined, because `path.join` throws before
  the `try` is entered;
- when the joined path is a directory that `readdir` can read, it answers
  with an HTML page that lists the directory;
- when the path names a file, it declines and lets the host serve the file;
- when the top-level `stat` or `readdir` fails, it hands the host the error
  it caught. A failing `stat` of an entry inside the directory is swallowed
  and the page is still returned.

This project models the logic of `index.js` in five modules:

- `Optional`: the `Option` type, standing for a value that may be
  undefined.
- `SortOrder`: the order `Array.prototype.sort()` uses for strings when it
  is given no comparator. Strings are compared character by character,
  and a proper prefix sorts first. The module holds an insertion sort that
  specifies `names.sort()`. It proves that the order is total and that a
  sorted permutation is unique, so every engine's sort algorithm gives the
  result the model gives.
- `ListingBuilder`: `getPageHTML`.
  - The classification loop stats each entry and pushes the name onto
    `dirs` or `files`.
  - The `try` that is left at the first failing `stat`.
  - The one-trailing-slash rule.
  - The sorting of each group.
  - The two `reduce` loops that render the items.
  - The page template.
  The loops are imperative methods proved against specification functions,
  and the properties are lemmas about those functions.
- `PluginAdapter`: `directoryIndexPlugin`. A class holds the module-level
  `rootDir`. Its start hook is the only method that writes `rootDir`. Its
  `serve` hook rejects when `rootDir` is undefined; otherwise it stats the
  path, reads the directory and renders the page, returns the error it
  caught, or declines.
- `HtmlReadback`: a reader for the markup the page template produces.
  - It proves that the title, the heading and every item read back from a
    rendered listing when no interpolated value contains the character that
    ends its field.
  - It proves that every entry whose name contains `<` is misread, for any
    href without `"`. Nothing is escaped, so such a name breaks the markup.

The filesystem (`stat`, `readdir`) and `path.join`/`path.dirname` are
function parameters of the model.

Four behaviours of `index.js` that a reader might not expect:
- One failing `stat` ends classification for all later entries; it does
  not skip only that entry.
- No interpolated value is HTML-escaped.
- `serve` looks at neither the host's response status nor the form of the
  path. Every request whose joined path is a directory that `readdir` can
  read gets a listing.
- A failure of the top-level `stat` or of `readdir` is returned to the host
  as the hook's result.

## Model

| member | source | states |
|---|---|---|
| ListingBuilder.FirstFailure | index.js:53-65 | the index where the `try` is left: every name before it stats successfully, the name at it fails, and it is `|names|` when nothing fails |
| ListingBuilder.Select | index.js:54-61 | a group holds only names from the input whose `stat` reports the wanted kind, and is no longer than the input |
| ListingBuilder.ClassifyEntries | index.js:50-65 | the loop leaves `dirs` and `files` as the directories and the files among the names before the first failing `stat`, in `readdir` order |
| ListingBuilder.SelectCount | index.js:54-61 | a name occurs in a group as often as in the input when its `stat` reports that kind, and not at all otherwise |
| ListingBuilder.SelectPartition | index.js:54-61 | when no `stat` fails, each name lands in exactly one of the two groups (multiset partition) |
| ListingBuilder.ClassificationStopsAtFirstFailure | index.js:53-65 | the groups partition exactly the names before the first failure, each kind lands in its own group, no name is in both, and for distinct names nothing at or after the failure is listed |
| ListingBuilder.NoFailureKeepsEveryName | index.js:53-65 | when no `stat` fails, the loop runs to the end and the two groups together are a permutation of the names |
| ListingBuilder.FailureOfFirstDropsAll | index.js:53-65 | when the first name's `stat` fails, both groups are empty whatever follows |
| ListingBuilder.EndsWithSlash | index.js:67 | the string is non-empty and its last character is `/` |
| ListingBuilder.WithTrailingSlash | index.js:67 | the result ends with `/`, extends the input, and is at most one character longer |
| ListingBuilder.WithTrailingSlashIsShortest | index.js:67 | the separator is added only when missing: no extension of the input ending in `/` is shorter |
| ListingBuilder.WithTrailingSlashIdempotent | index.js:163 | applying the rule to an already suffixed path changes nothing |
| ListingBuilder.Label | index.js:68-81 | the visible text of an item: `Parent Directory` for the parent link, the name followed by `/` for a directory, the name alone for a file |
| ListingBuilder.Icon | index.js:73-82 | a directory entry shows the folder icon and a file entry the file icon |
| ListingBuilder.RenderItem | index.js:68-82 | the markup of one item, whitespace included: the fixed template text `ParentOpen`, `ParentClose`, `EntryOpen`, `EntryClose` and `HrefEnd` around the href, the icon and the label |
| ListingBuilder.Concat | index.js:73-82 | the `reduce` accumulator starting from `""`: the renderings of the elements in order |
| ListingBuilder.RenderItems | index.js:140 | the list markup: the renderings of the items in order |
| ListingBuilder.ListingItems | index.js:67-82 | the listing as items: the parent link, then the sorted directory entries, then the sorted file entries, with hrefs under the child-link prefix |
| ListingBuilder.Document | index.js:84-144 | the page template, whitespace included: `PageHead`, the title, `TitleToHeading` (with the stylesheet), the heading, `HeadingToList`, the list and `PageTail` |
| ListingBuilder.RenderPage | index.js:84-144 | a page value filled into the page template |
| ListingBuilder.BuildPage | index.js:84-144 | the page of a directory: title and heading both `Index of` followed by the request path, and the listing's items |
| ListingBuilder.PageHTML | index.js:49-145 | what `getPageHTML` resolves to: the page of the groups classified from the names before the first failing `stat`, with `path.dirname` of the request path as the parent link |
| ListingBuilder.EntryItems | index.js:73-82 | one item per name, each linking to the child-link prefix followed by that name and labelled with it |
| ListingBuilder.ListingItemsLayout | index.js:68-82 | the list is the parent link, then every directory, then every file; each group is sorted and a permutation of its names, and each entry's href and label are given |
| ListingBuilder.GroupsLayout | index.js:140 | position by position, the list joins the parent item, the directory items and the file items in that order |
| ListingBuilder.ConcatAppend | index.js:73-82 | rendering a concatenation of items gives the concatenation of their renderings |
| ListingBuilder.ListingRendersInParts | index.js:140 | the list markup is the parent link's, then the directory group's, then the file group's |
| ListingBuilder.RenderEntries | index.js:73-82 | the accumulator loop of one `reduce` builds exactly the renderings of that group's items, left to right |
| ListingBuilder.GetPageHTML | index.js:49-145 | the method (classify, prefix, parent link, sort and render each group, fill the template) returns exactly the page of the listing specification |
| ListingBuilder.EmptyDirectoryListsOnlyParent | index.js:68-82 | an empty directory is listed with the parent link alone |
| ListingBuilder.SelectPermutation | index.js:54-61 | permuting the names permutes each group |
| ListingBuilder.NoFailureUnderPermutation | index.js:53-65 | whether any `stat` fails does not depend on the order of the names |
| ListingBuilder.GroupIndependentOfEntryOrder | index.js:73 | when no `stat` fails, each sorted group is the same for every order `readdir` might give |
| ListingBuilder.PageIndependentOfEntryOrder | index.js:49-145 | when no `stat` fails, the page is the same for every order `readdir` might give |
| SortOrder.Below | index.js:73 | one string sorts no later than another: the first differing character decides, and a proper prefix sorts first |
| SortOrder.Sorted | index.js:73 | every element sorts no later than every element after it |
| SortOrder.BelowReflexive | index.js:73 | every string sorts no later than itself |
| SortOrder.BelowTotal | index.js:73 | any two strings are comparable |
| SortOrder.BelowAntisymmetric | index.js:73 | two strings that each sort no later than the other are equal |
| SortOrder.BelowTransitive | index.js:73 | the default sort order is transitive |
| SortOrder.BelowExtension | index.js:78 | a string sorts before every extension of itself |
| SortOrder.UpperCaseFirst | index.js:78 | the comparison is by code unit, so every string starting with an upper-case ASCII letter sorts before every string starting with a lower-case one |
| SortOrder.Insert | index.js:73 | inserting adds exactly one occurrence of the element |
| SortOrder.InsertSorted | index.js:73 | inserting into a sorted sequence keeps it sorted |
| SortOrder.SortNames | index.js:73 | `sort()` returns a sorted permutation of the group |
| SortOrder.SortedPermutationsShareHead | index.js:73 | two sorted permutations of each other start with the same string |
| SortOrder.SortedPermutationUnique | index.js:73 | a sorted permutation is unique, so any sort algorithm gives the same group |
| SortOrder.SortDependsOnlyOnMultiset | index.js:78 | the sorted group depends only on which names it holds |
| SortOrder.SortSortedIsIdentity | index.js:78 | sorting an already sorted group changes nothing |
| PluginAdapter.DirectoryIndexPlugin.constructor | index.js:147-151 | the plugin is named `directory-index`, and `rootDir` starts undefined |
| PluginAdapter.DirectoryIndexPlugin.ServerStart | index.js:152-154 | the start hook sets `rootDir` to the configured root |
| PluginAdapter.DirectoryIndexPlugin.Serve | index.js:155-175 | the hook (1) rejects exactly when `rootDir` is undefined; (2) returns the listing of the joined path exactly when it is a directory that `readdir` reads; (3) declines exactly when it is a file; (4) returns exactly the caught `stat` or `readdir` error otherwise |
| HtmlReadback.FileIsNotFolder | index.js:75-80 | file items and folder items are told apart by their icons |
| HtmlReadback.EntryIsNotParent | index.js:68-75 | entry items and the parent item are told apart by their markup |
| HtmlReadback.ReadEntryTailRoundTrip | index.js:74-81 | an entry's icon, label and closing tags read back as its kind and name when the name holds no `<` |
| HtmlReadback.ReadItemRoundTrip | index.js:68-82 | each item markup reads back as that item when its href holds no `"` and its name no `<` |
| HtmlReadback.ReadItemsRoundTrip | index.js:73-82 | a rendered list of readable items reads back as exactly those items |
| HtmlReadback.ReadPageRoundTrip | index.js:84-144 | a rendered page reads back as its title, heading and items |
| HtmlReadback.ItemsReadable | index.js:67-82 | the items of a listing are readable when the request path, the parent link and the names are |
| HtmlReadback.ListingReadsBack | index.js:49-145 | a listing whose path, parent link and names are free of `<` and `"` reads back as the parent link, one item per listed directory, one per listed file, and the title and heading |
| HtmlReadback.DocumentFields | index.js:84-144 | the page template splits at its title and heading fields, and the text after each field opens with a tag |
| HtmlReadback.UnescapedLabelIsMisread | index.js:75-80 | the label of an entry whose name holds `<` is read back only up to that `<`, so the entry does not read back as itself |
| HtmlReadback.UnescapedNameIsMisread | index.js:74-81 | the names are not escaped: for every kind, every href without `"` and every name that holds `<`, the entry's markup does not read back as that entry |

## Left out

- The SVG icons (index.js:9-47) and the inline stylesheet (index.js:91-135) are stand-in constants. The stand-in file and folder icons differ early on. The readback needs only that neither icon is a prefix of the other, and the real icons satisfy that too: they first differ at character 127.
- `stat`, `readdir`, `path.join` and `path.dirname` are uninterpreted function parameters. Node's path normalisation, the real filesystem, and a filesystem that changes between two calls are outside the model.
- The `async`/`await` plumbing and the promises are not modelled. Each hook is modelled as the value its promise settles to. Requests served concurrently are not modelled.
- `__filename` and `__dirname` (index.js:5-6) are computed but never used by the logic, so they are out of the model.
- `args.config` may hold a `rootDir` that is not a string. The model takes it to be a string or undefined.
- `PluginAdapter.DirectoryIndexPlugin.constructor`: one instance stands for the module, so the constructor is the module's loading, not a call to `directoryIndexPlugin()` (index.js:149). Every object that function returns shares the one `rootDir`, and a second call does not reset it. A second instance of the class would have its own `rootDir`, which the code never has.
- `PluginAdapter.DirectoryIndexPlugin.ServerStart`: when `args.config` is missing, destructuring it throws and the start hook rejects (index.js:153). `HostConfig` always has a config, so the model cannot express that case.
- `PluginAdapter.DirectoryIndexPlugin.Serve`: a `rootDir` of the wrong type makes `path.join` throw outside the `try`. Only the undefined case is modelled, as the `Rejected` outcome with the `ERR_INVALID_ARG_TYPE` code.
- File names and paths that hold characters beyond U+FFFF are outside the model. A Dafny `char` is a Unicode scalar value, so such a character is a single `char`. JavaScript stores the same character as two UTF-16 code units. `sort()` compares those code units, so it puts U+1F600 before U+FF01; `Below` compares code points and orders them the other way. For names made only of characters up to U+FFFF, the two orders agree.
- `SortOrder.SortNames`: `Array.prototype.sort()` sorts the array in place. The model sorts a sequence value and reassigns the variable, because nothing else sees the array. `SortedPermutationUnique` shows the result is the same whatever algorithm an engine uses.
